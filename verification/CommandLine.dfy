/**
 Command lines of the loader: backslash processing in boot/common/interp_backslash.c,
 splitting into words in boot/common/interp_parse.c and joining in boot/common/misc.c.
 */
module CommandLine {
  import opened Options

  const NUL := '\0'
  const PARSE_BUFSIZE := 1024
  const MAXARGS := 20

  // ----- Characters -----

  predicate IsSpace(c: char) { c == ' ' || '\t' <= c <= '\r' }
  predicate IsQuote(c: char) { c == '\'' || c == '"' }
  predicate IsDigit(c: char) { '0' <= c <= '9' }
  predicate IsOctal(c: char) { '0' <= c <= '7' }
  predicate IsHex(c: char) { IsDigit(c) || 'a' <= c <= 'f' || 'A' <= c <= 'F' }

  function Digit(c: char): (d: nat)
    requires IsHex(c)
    ensures d < 16
  {
    if IsDigit(c) then (c as int) - ('0' as int)
    else if 'a' <= c then (c as int) + 10 - ('a' as int)
    else (c as int) + 10 - ('A' as int)
  }

  /** A character of a string, or the NUL behind it. */
  function At(s: string, k: nat): char {
    if k < |s| then s[k] else NUL
  }

  // ----- Backslash elimination -----

  /** What an escape stands for, and how much of the string it takes. */
  datatype Escape = Escape(out: string, taken: nat)

  /** The characters of single-letter escapes. */
  function Letter(c: char): string {
    match c
    case 'b' => [8 as char]
    case 'f' => [12 as char]
    case 'r' => ['\r']
    case 'n' => ['\n']
    case 's' => [' ']
    case 't' => ['\t']
    case 'v' => [11 as char]
    case 'z' => []
    case _ => [c]
  }

  predicate OctalEscape(s: string) {
    '0' <= At(s, 0) <= '3' && IsOctal(At(s, 1)) && IsOctal(At(s, 2))
  }

  predicate HexEscape(s: string) {
    At(s, 0) == '0' && (At(s, 1) == 'x' || At(s, 1) == 'X') && IsHex(At(s, 2))
  }

  /** The escape at the start of `s`, which follows a backslash.  A digit that starts no
      number takes nothing: it is read again as an ordinary character. */
  function EscapeAt(s: string): (e: Escape)
    requires s != []
    ensures e.taken <= |s| && |e.out| <= e.taken + 1
    ensures e.taken == 0 ==> IsDigit(s[0]) && e.out == []
  {
    if IsQuote(s[0]) || s[0] == '$' then Escape(['\\', s[0]], 1)
    else if !IsDigit(s[0]) then Escape(Letter(s[0]), 1)
    else if OctalEscape(s) then
      Escape([(Digit(s[0]) * 64 + Digit(s[1]) * 8 + Digit(s[2])) as char], 3)
    else if HexEscape(s) then
      if IsHex(At(s, 3)) then Escape([(Digit(s[2]) * 16 + Digit(s[3])) as char], 4)
        else Escape([Digit(s[2]) as char], 3)
    else Escape([], 0)
  }

  /** Text with its escapes replaced. */
  function Unescape(s: string): (r: string)
    ensures |r| <= |s|
    decreases |s|, 0
  {
    if s == [] then []
    else if s[0] == '\\' then AfterBackslash(s[1..])
    else [s[0]] + Unescape(s[1..])
  }

  function AfterBackslash(s: string): (r: string)
    ensures |r| <= |s| + 1
    decreases |s|, 1
  {
    if s == [] then ['\\']
    else
      var e := EscapeAt(s);
      e.out + Unescape(s[e.taken..])
  }

  /** Escapes that are kept for the parser to see, and a backslash at the very end. */
  predicate Stable(s: string) {
    if s == [] then true
    else if s[0] != '\\' then Stable(s[1..])
    else |s| == 1 || ((IsQuote(s[1]) || s[1] == '$') && Stable(s[2..]))
  }

  lemma EscapeSize(s: string)
    requires s != []
    ensures var e := EscapeAt(s);
            if IsQuote(s[0]) || s[0] == '$' then e == Escape(['\\', s[0]], 1) else |e.out| <= e.taken
  {
  }

  /** Only text whose every backslash is before a quote or a dollar sign, or at the end, keeps
      its length, and that text is unchanged. */
  lemma {:induction false} UnchangedIffStable(s: string)
    ensures Unescape(s) == s <==> Stable(s)
    ensures |Unescape(s)| == |s| <==> Stable(s)
    decreases |s|
  {
    hide EscapeAt, IsQuote;
    if s != [] && s[0] != '\\' {
      UnchangedIffStable(s[1..]);
    } else if |s| > 1 {
      var e := EscapeAt(s[1..]);
      assert s[1..][e.taken..] == s[1 + e.taken..];
      assert Unescape(s) == e.out + Unescape(s[1 + e.taken..]);
      EscapeSize(s[1..]);
      if IsQuote(s[1]) || s[1] == '$' {
        UnchangedIffStable(s[2..]);
        assert s == ['\\', s[1]] + s[2..];
      }
    }
  }

  /** What is still to come, after a backslash or not. */
  function Left(seenbs: bool, s: string): string {
    if seenbs then AfterBackslash(s) else Unescape(s)
  }

  /** Of the result, `sofar` has been written when the loop is at position `p`. */
  ghost predicate Progress(str: string, sofar: string, seenbs: bool, p: nat) {
    p <= |str| && sofar + Left(seenbs, str[p..]) == Unescape(str)
  }

  lemma ProgressStarts(str: string)
    ensures Progress(str, [], false, 0)
  {
    assert str[0..] == str;
  }

  lemma ProgressEscape(str: string, sofar: string, p: nat)
    requires p < |str| && Progress(str, sofar, true, p)
    ensures var e := EscapeAt(str[p..]); Progress(str, sofar + e.out, false, p + e.taken)
  {
    hide EscapeAt;
    var e := EscapeAt(str[p..]);
    assert str[p..][e.taken..] == str[p + e.taken..];
  }

  lemma ProgressCharacter(str: string, sofar: string, p: nat)
    requires p < |str| && Progress(str, sofar, false, p)
    ensures if str[p] == '\\' then Progress(str, sofar, true, p + 1) else Progress(str, sofar + [str[p]], false, p + 1)
  {
    assert str[p..][1..] == str[p + 1..];
  }

  lemma ProgressEnds(str: string, sofar: string, seenbs: bool)
    requires Progress(str, sofar, seenbs, |str|)
    ensures Unescape(str) == if seenbs then sofar + ['\\'] else sofar
  {
    assert str[|str|..] == [];
  }

  /** Writes a string into a buffer. */
  method Store(buf: array<char>, i: nat, s: string)
    requires i + |s| <= buf.Length
    modifies buf
    ensures buf[..i + |s|] == old(buf[..i]) + s
  {
    var k := 0;
    while k < |s|
      invariant 0 <= k <= |s| && buf[..i + k] == old(buf[..i]) + s[..k]
    {
      buf[i + k] := s[k];
      k := k + 1;
    }
  }

  /** backslash: the copy is never longer than the string. */
  method Backslash(str: string) returns (newStr: array<char>, ghost n: nat)
    ensures fresh(newStr) && newStr.Length == |str| + 1 && n <= |str|
    ensures newStr[..n] == Unescape(str) && newStr[n] == NUL
  {
    hide Progress, EscapeAt, Unescape;
    newStr := new char[|str| + 1](_ => NUL);
    var seenbs, i, p := false, 0, 0;
    ProgressStarts(str);
    assert newStr[..0] == [];
    while p < |str|
      invariant 0 <= i && 0 <= p <= |str| && i + (if seenbs then 1 else 0) <= p
      invariant Progress(str, newStr[..i], seenbs, p)
      decreases |str| - p, seenbs
    {
      if seenbs {
        ProgressEscape(str, newStr[..i], p);
        seenbs := false;
        var e := EscapeAt(str[p..]);
        Store(newStr, i, e.out);
        i, p := i + |e.out|, p + e.taken;
      } else {
        ProgressCharacter(str, newStr[..i], p);
        if str[p] == '\\' {
          seenbs := true;
          p := p + 1;
        } else {
          Store(newStr, i, [str[p]]);
          i, p := i + 1, p + 1;
        }
      }
    }
    ProgressEnds(str, newStr[..i], seenbs);
    if seenbs {
      Store(newStr, i, ['\\']);
      i := i + 1;
    }
    newStr[i] := NUL;
    n := i;
  }

  // ----- What the escapes are -----

  /** The letters that stand for control characters, what they stand for, and `z`, for nothing. */
  lemma LetterEscapes(rest: string)
    ensures Unescape(['\\', 'b'] + rest) == [0x08 as char] + Unescape(rest)
    ensures Unescape(['\\', 't'] + rest) == [0x09 as char] + Unescape(rest)
    ensures Unescape(['\\', 'n'] + rest) == [0x0a as char] + Unescape(rest)
    ensures Unescape(['\\', 'v'] + rest) == [0x0b as char] + Unescape(rest)
    ensures Unescape(['\\', 'f'] + rest) == [0x0c as char] + Unescape(rest)
    ensures Unescape(['\\', 'r'] + rest) == [0x0d as char] + Unescape(rest)
    ensures Unescape(['\\', 's'] + rest) == [0x20 as char] + Unescape(rest)
    ensures Unescape(['\\', 'z'] + rest) == Unescape(rest)
  {
    hide Unescape, EscapeAt, Letter;
    forall c: char | c in "btnvfrsz" ensures Unescape(['\\', c] + rest) == Letter(c) + Unescape(rest) {
      UnescapeLetter(c, rest);
    }
    LettersAre();
    assert [] + Unescape(rest) == Unescape(rest);
  }

  lemma UnescapeLetter(c: char, rest: string)
    requires !IsDigit(c) && !IsQuote(c) && c != '$'
    ensures Unescape(['\\', c] + rest) == Letter(c) + Unescape(rest)
  {
    hide Letter;
    var s := ['\\', c] + rest;
    assert s[1..][1..] == rest;
    assert EscapeAt(s[1..]) == Escape(Letter(c), 1);
  }

  lemma LettersAre()
    ensures Letter('b') == [0x08 as char] && Letter('t') == [0x09 as char] && Letter('n') == [0x0a as char]
    ensures Letter('v') == [0x0b as char] && Letter('f') == [0x0c as char] && Letter('r') == [0x0d as char]
    ensures Letter('s') == [0x20 as char] && Letter('z') == []
  {
  }

  /** Any other character that is no digit stands for itself; a quote or a dollar sign keeps its
      backslash. */
  lemma OtherEscapes(c: char, rest: string)
    requires c !in "0123456789" && c !in "btnvfrsz"
    ensures Unescape(['\\', c] + rest) == (if c in "'\"$" then ['\\', c] else [c]) + Unescape(rest)
  {
    hide Letter, Digit;
    assert IsDigit(c) ==> c in "0123456789";
    assert c in "'\"$" <==> IsQuote(c) || c == '$';
    if IsQuote(c) || c == '$' {
      var s := ['\\', c] + rest;
      assert s[1..][1..] == rest;
    } else {
      UnescapeLetter(c, rest);
      OtherLetter(c);
    }
  }

  lemma OtherLetter(c: char)
    requires c !in "btnvfrsz"
    ensures Letter(c) == [c]
  {
  }

  /** Digits by value. */
  const OCTAL := "01234567"
  const LOWER := "0123456789abcdef"
  const UPPER := "0123456789ABCDEF"

  lemma DigitsAre(c: char, d: nat)
    requires d < 16 && (c == LOWER[d] || c == UPPER[d])
    ensures IsHex(c) && Digit(c) == d
  {
  }

  lemma OctalIs(d: nat)
    requires d < 8
    ensures IsHex(OCTAL[d]) && Digit(OCTAL[d]) == d
  {
    assert OCTAL[d] == LOWER[d];
    DigitsAre(OCTAL[d], d);
  }

  /** A backslash and three octal digits are the character with that number, for each below 256. */
  lemma OctalEscapes(n: nat, rest: string)
    requires n < 256
    ensures Unescape(['\\', OCTAL[n / 64], OCTAL[n / 8 % 8], OCTAL[n % 8]] + rest) == [n as char] + Unescape(rest)
  {
    hide Digit, Unescape;
    var a, b, c := n / 64, n / 8 % 8, n % 8;
    OctalIs(a);
    OctalIs(b);
    OctalIs(c);
    OctalEscapeIs(a, b, c, rest);
    assert a * 64 + b * 8 + c == n;
  }

  lemma OctalEscapeIs(a: nat, b: nat, c: nat, rest: string)
    requires a < 4 && b < 8 && c < 8
    requires Digit(OCTAL[a]) == a && Digit(OCTAL[b]) == b && Digit(OCTAL[c]) == c
    ensures Unescape(['\\', OCTAL[a], OCTAL[b], OCTAL[c]] + rest) == [(a * 64 + b * 8 + c) as char] + Unescape(rest)
  {
    hide Digit;
    OctalDigits(a, b, c);
    var s := ['\\', OCTAL[a], OCTAL[b], OCTAL[c]] + rest;
    assert s[1..][3..] == rest;
    assert EscapeAt(s[1..]) == Escape([(a * 64 + b * 8 + c) as char], 3);
  }

  lemma OctalDigits(a: nat, b: nat, c: nat)
    requires a < 4 && b < 8 && c < 8
    ensures '0' <= OCTAL[a] <= '3' && '0' <= OCTAL[b] <= '7' && '0' <= OCTAL[c] <= '7'
  {
  }

  /** Zero, an `x` in either case and two hexadecimal digits in either case are the character with
      that number. */
  lemma HexEscapes(x: char, hi: nat, lo: nat, h: char, l: char, rest: string)
    requires x == 'x' || x == 'X'
    requires hi < 16 && lo < 16 && (h == LOWER[hi] || h == UPPER[hi]) && (l == LOWER[lo] || l == UPPER[lo])
    ensures Unescape(['\\', '0', x, h, l] + rest) == [(hi * 16 + lo) as char] + Unescape(rest)
  {
    hide Digit;
    DigitsAre(h, hi);
    DigitsAre(l, lo);
    var s := ['\\', '0', x, h, l] + rest;
    assert s[1..][4..] == rest;
    assert EscapeAt(s[1..]) == Escape([(hi * 16 + lo) as char], 4);
  }

  /** One hexadecimal digit is enough when no other follows. */
  lemma ShortHexEscapes(x: char, d: nat, c: char, rest: string)
    requires x == 'x' || x == 'X'
    requires d < 16 && (c == LOWER[d] || c == UPPER[d])
    requires rest == [] || (rest[0] !in LOWER && rest[0] !in UPPER)
    ensures Unescape(['\\', '0', x, c] + rest) == [d as char] + Unescape(rest)
  {
    hide Digit;
    DigitsAre(c, d);
    if rest != [] && IsHex(rest[0]) {
      HexIs(rest[0]);
    }
    var s := ['\\', '0', x, c] + rest;
    assert s[1..][3..] == rest;
    assert EscapeAt(s[1..]) == Escape([d as char], 3);
  }

  lemma HexIs(c: char)
    requires IsHex(c)
    ensures c in LOWER || c in UPPER
  {
    assert IsDigit(c) ==> LOWER[c as int - '0' as int] == c;
    assert 'a' <= c <= 'f' ==> LOWER[c as int - 'a' as int + 10] == c;
    assert 'A' <= c <= 'F' ==> UPPER[c as int - 'A' as int + 10] == c;
  }

  // ----- Joining -----

  /** Words with one blank between them. */
  function Join(words: seq<string>): string {
    if words == [] then []
    else if |words| == 1 then words[0]
    else words[0] + " " + Join(words[1..])
  }

  lemma JoinStep(s: string, ws: seq<string>, i: nat)
    requires i < |ws|
    ensures s + Join(ws[i..]) == (if i == |ws| - 1 then s + ws[i] else s + ws[i] + " ") + Join(ws[i + 1..])
  {
    assert ws[i..][1..] == ws[i + 1..];
  }

  lemma JoinNothing(s: string, ws: seq<string>)
    ensures s + Join(ws[|ws|..]) == s
  {
  }

  /** unargv: nothing for no words */
  method Unargv(argv: seq<string>) returns (cp: Option<string>)
    ensures cp == if argv == [] then None else Some(Join(argv))
  {
    if |argv| == 0 {
      return None;
    }
    hide Join;
    var i, s := 0, "";
    assert argv[0..] == argv && "" + Join(argv) == Join(argv);
    while i < |argv|
      invariant 0 <= i <= |argv|
      invariant s + Join(argv[i..]) == Join(argv)
    {
      JoinStep(s, argv, i);
      s := s + argv[i];
      if i < |argv| - 1 {
        s := s + " ";
      }
      i := i + 1;
    }
    JoinNothing(s, argv);
    return Some(s);
  }

  // ----- Parsing -----

  /** What parse comes to: the words, failure, a full vector whose terminator has no place in
      it, or a variable to expand, which is not part of this model. */
  datatype Outcome = Args(words: seq<string>) | Fail | Overrun | Expand

  function Finish(args: seq<string>, buf: string): Outcome {
    if buf != [] && |args| >= MAXARGS then Fail
    else
      var all := if buf == [] then args else args + [buf];
      if |all| >= MAXARGS then Overrun else Args(all)
  }

  /** The state machine from some point on: the words so far, the word being collected, if
      blanks are being skipped, and the open quote, if any. */
  function Run(p: string, args: seq<string>, buf: string, white: bool, quote: char): Outcome
    decreases |p|, white
  {
    if p == [] then Finish(args, if white then [] else buf)
    else if white then
      if IsSpace(p[0]) then Run(p[1..], args, buf, true, quote) else Run(p, args, buf, false, quote)
    else if p[0] == '\\' && |p| > 1 then
      if |buf| == PARSE_BUFSIZE - 1 then Fail else Run(p[2..], args, buf + [p[1]], false, quote)
    else if IsQuote(p[0]) then
      Run(p[1..], args, buf, false, if quote != NUL then NUL else p[0])
    else if IsSpace(p[0]) && quote == NUL then
      if buf == [] then Run(p[1..], args, buf, true, quote)
      else if |args| >= MAXARGS then Fail
      else Run(p[1..], args + [buf], [], true, quote)
    else if p[0] == '$' then Expand
    else if |buf| == PARSE_BUFSIZE - 1 then Fail
    else Run(p[1..], args, buf + [p[0]], false, quote)
  }

  /** A character string up to its first NUL. */
  function CString(s: string): (r: string)
    ensures NUL !in s ==> r == s
  {
    if s == [] || s[0] == NUL then [] else [s[0]] + CString(s[1..])
  }

  function Parsed(str: Option<string>): Outcome {
    match str
    case None => Fail
    case Some(s) => Run(CString(Unescape(s)), [], [], false, NUL)
  }

  /** The machine at position `k` of `text` will end with `r`. */
  ghost predicate Ends(r: Outcome, text: string, k: nat, args: seq<string>, buf: string, white: bool, quote: char) {
    k <= |text| && Run(text[k..], args, buf, white, quote) == r
  }

  lemma EndsStart(s: string)
    ensures Ends(Parsed(Some(s)), CString(Unescape(s)), 0, [], [], false, NUL)
  {
    assert CString(Unescape(s))[0..] == CString(Unescape(s));
  }

  /** One pass of the loop, in white space. */
  lemma EndsWhite(r: Outcome, text: string, k: nat, args: seq<string>, buf: string, quote: char)
    requires k < |text| && Ends(r, text, k, args, buf, true, quote)
    ensures if IsSpace(text[k]) then Ends(r, text, k + 1, args, buf, true, quote)
            else Ends(r, text, k, args, buf, false, quote)
  {
    assert text[k..][1..] == text[k + 1..];
  }

  /** One pass of the loop, in a word. */
  lemma EndsStep(r: Outcome, text: string, k: nat, args: seq<string>, buf: string, quote: char)
    requires k < |text| && NUL !in text && Ends(r, text, k, args, buf, false, quote)
    ensures var c := text[k];
            if c == '\\' && At(text, k + 1) != NUL then
              if |buf| == PARSE_BUFSIZE - 1 then r == Fail
                else Ends(r, text, k + 2, args, buf + [text[k + 1]], false, quote)
            else if IsQuote(c) then Ends(r, text, k + 1, args, buf, false, if quote != NUL then NUL else c)
            else if IsSpace(c) && quote == NUL then
              if buf == [] then Ends(r, text, k + 1, args, [], true, quote)
              else if |args| >= MAXARGS then r == Fail
              else Ends(r, text, k + 1, args + [buf], [], true, quote)
            else if c == '$' then r == Expand
            else if |buf| == PARSE_BUFSIZE - 1 then r == Fail
            else Ends(r, text, k + 1, args, buf + [c], false, quote)
  {
    hide IsSpace, IsQuote;
    var p := text[k..];
    assert p[1..] == text[k + 1..] && p[0] == text[k];
    if |p| > 1 {
      assert p[1] == text[k + 1] && p[2..] == text[k + 2..] && text[k + 1] in text;
    }
  }

  lemma EndsAtEnd(r: Outcome, text: string, args: seq<string>, buf: string, white: bool, quote: char)
    requires Ends(r, text, |text|, args, buf, white, quote)
    ensures r == Finish(args, if white then [] else buf)
  {
    assert text[|text|..] == [];
  }

  /** `text` is the C string at the start of `c`. */
  ghost predicate Terminated(c: string, text: string) {
    |text| < |c| && text == c[..|text|] && c[|text|] == NUL && NUL !in text
  }

  lemma TerminatedAt(c: string, text: string, k: nat)
    requires Terminated(c, text) && k <= |text|
    ensures k < |c| && c[k] == At(text, k) && (c[k] == NUL <==> k == |text|)
    ensures c[k] != NUL ==> k + 1 < |c| && c[k + 1] == At(text, k + 1)
  {
    assert k < |text| ==> text[k] in text;
    assert k + 1 < |text| ==> text[k + 1] in text;
  }

  lemma {:induction false} CStringOf(c: string, s: string)
    requires |s| < |c| && c[..|s|] == s && c[|s|] == NUL
    ensures Terminated(c, CString(s))
  {
    if s != [] && s[0] != NUL {
      assert c[1..][..|s| - 1] == s[1..];
      CStringOf(c[1..], s[1..]);
      assert c == [c[0]] + c[1..];
    }
  }

  /** Words that parse can return. */
  ghost predicate WordsFit(args: seq<string>) {
    forall w <- args :: 0 < |w| < PARSE_BUFSIZE
  }

  lemma NoWords()
    ensures WordsFit([])
  {
  }

  lemma WordsFitPush(args: seq<string>, w: string)
    requires WordsFit(args) && 0 < |w| < PARSE_BUFSIZE
    ensures WordsFit(args + [w])
  {
  }

  /** Where the loop of parse is. */
  datatype State = STR | WHITE

  /** parse, of a C string */
  method Parse(str: Option<string>) returns (r: Outcome)
    requires str.Some? ==> NUL !in str.value
    ensures r == Parsed(str)
    ensures r.Args? ==> |r.words| < MAXARGS && WordsFit(r.words)
  {
    hide Ends, Unescape, CString, IsSpace, IsQuote, Terminated, WordsFit, At;
    if str.None? {
      return Fail;
    }
    var copy, n := Backslash(str.value);
    ghost var text := CString(Unescape(str.value));
    ghost var c := copy[..];
    assert c[..n] == copy[..n];
    CStringOf(c, Unescape(str.value));
    EndsStart(str.value);
    NoWords();
    var p, i := 0, 0;
    var state, quote := STR, NUL;
    var args: seq<string> := [];
    var buf := new char[PARSE_BUFSIZE](_ => NUL);
    assert buf[..0] == [];
    TerminatedAt(c, text, 0);
    while copy[p] != NUL
      invariant copy[..] == c && p <= |text| && p < copy.Length && c[p] == At(text, p)
      invariant 0 <= i < PARSE_BUFSIZE && (state.WHITE? ==> i == 0)
      invariant |args| <= MAXARGS && WordsFit(args)
      invariant Ends(Parsed(str), text, p, args, buf[..i], state.WHITE?, quote)
      decreases |text| - p, state.WHITE?
    {
      TerminatedAt(c, text, p);
      match state {
        case STR =>
          EndsStep(Parsed(str), text, p, args, buf[..i], quote);
          if copy[p] == '\\' && copy[p + 1] != NUL {
            p := p + 1;
            TerminatedAt(c, text, p);
            if i == PARSE_BUFSIZE - 1 {
              return Fail;
            }
            Store(buf, i, [copy[p]]);
            i, p := i + 1, p + 1;
          } else if IsQuote(copy[p]) {
            quote := if quote != NUL then NUL else copy[p];
            p := p + 1;
          } else if IsSpace(copy[p]) && quote == NUL {
            state := WHITE;
            if i != 0 {
              if |args| >= MAXARGS {
                return Fail;
              }
              WordsFitPush(args, buf[..i]);
              args := args + [buf[..i]];
              i := 0;
            }
            p := p + 1;
          } else if copy[p] == '$' {
            return Expand;
          } else {
            if i == PARSE_BUFSIZE - 1 {
              return Fail;
            }
            Store(buf, i, [copy[p]]);
            i, p := i + 1, p + 1;
          }
        case WHITE =>
          EndsWhite(Parsed(str), text, p, args, buf[..i], quote);
          if IsSpace(copy[p]) {
            p := p + 1;
          } else {
            state := STR;
          }
      }
      TerminatedAt(c, text, p);
    }
    TerminatedAt(c, text, p);
    EndsAtEnd(Parsed(str), text, args, buf[..i], state.WHITE?, quote);
    if i != 0 && state.STR? {
      if |args| >= MAXARGS {
        return Fail;
      }
      WordsFitPush(args, buf[..i]);
      args := args + [buf[..i]];
    }
    if |args| >= MAXARGS {
      return Overrun;
    }
    return Args(args);
  }

  /** Text without any character that means something to the parser but blanks. */
  ghost predicate Blank(w: string) {
    forall c <- w :: c != '\\' && !IsQuote(c) && c != '$' && c != NUL
  }

  lemma {:induction false} UnescapeSame(s: string)
    requires '\\' !in s
    ensures Unescape(s) == s
  {
    if s != [] {
      UnescapeSame(s[1..]);
    }
  }

  /** Between quotes blanks are part of the word. */
  lemma {:induction false} RunInQuotes(w: string, q: char, end: char, buf: string)
    requires Blank(w) && IsQuote(q) && IsQuote(end) && |buf| < PARSE_BUFSIZE
    ensures Run(w + [end], [], buf, false, q)
            == if |buf| + |w| < PARSE_BUFSIZE then Finish([], buf + w) else Fail
    decreases |w|
  {
    hide IsSpace;
    var p := w + [end];
    if w == [] {
      assert p[1..] == [] && buf + w == buf;
    } else {
      assert p[1..] == w[1..] + [end] && w[0] in w;
      assert forall c <- w[1..] :: c in w;
      if |buf| < PARSE_BUFSIZE - 1 {
        RunInQuotes(w[1..], q, end, buf + [w[0]]);
        assert buf + [w[0]] + w[1..] == buf + w;
      }
    }
  }

  /** Text between quotes, of either kind, is one word, its blanks included; nothing between quotes
      is no word.  The quotes need not be of the same kind. */
  lemma QuotedIsOneWord(w: string, q: char, end: char)
    requires q in "'\"" && end in "'\""
    requires forall c <- w :: c !in "'\"\\$\0"
    ensures Parsed(Some([q] + w + [end]))
            == if |w| >= PARSE_BUFSIZE then Fail else if w == [] then Args([]) else Args([w])
  {
    hide Run;
    var s := [q] + w + [end];
    forall c <- w ensures c != '\\' && !IsQuote(c) && c != '$' && c != NUL {
      assert c !in "'\"\\$\0";
    }
    assert IsQuote(q) && IsQuote(end) && forall c <- s :: c in [q] || c in w || c in [end];
    UnescapeSame(s);
    assert NUL !in s;
    RunOpens(w + [end], q);
    assert s == [q] + (w + [end]);
    RunInQuotes(w, q, end, []);
    assert [] + w == w;
  }

  lemma RunOpens(p: string, q: char)
    requires IsQuote(q)
    ensures Run([q] + p, [], [], false, NUL) == Run(p, [], [], false, q)
  {
    assert ([q] + p)[1..] == p;
  }

  lemma RunLetter(c: char, p: string, args: seq<string>, buf: string, quote: char)
    requires 'a' <= c <= 'z' && |buf| < PARSE_BUFSIZE - 1
    ensures Run([c] + p, args, buf, false, quote) == Run(p, args, buf + [c], false, quote)
  {
    assert ([c] + p)[1..] == p;
  }

  /** Exactly the six blanks of the C locale part words. */
  lemma BlanksPartWords(c: char)
    ensures Run(['a', c, 'b'], [], [], false, NUL) == Args([['a'], ['b']]) <==> c as int in {9, 10, 11, 12, 13, 32}
  {
    RunLetter('a', [c, 'b'], [], [], NUL);
    assert ['a', c, 'b'] == ['a'] + [c, 'b'] && [] + ['a'] == ['a'];
    var s := [c, 'b'];
    assert s[1..] == ['b'] && s[2..] == [] && ['b'] + [] == ['b'];
    forall args, buf: string, q | |buf| < 10 ensures Run(['b'], args, buf, false, q) == Finish(args, buf + ['b']) {
      RunLetter('b', [], args, buf, q);
    }
    assert Run(['b'], [['a']], [], true, NUL) == Run(['b'], [['a']], [], false, NUL);
    assert [] + [['a']] == [['a']] && [] + ['b'] == ['b'] && [['a']] + [['b']] == [['a'], ['b']];
    assert Finish([['a']], ['b']) == Args([['a'], ['b']]);
    assert IsSpace(c) <==> c as int in {9, 10, 11, 12, 13, 32};
    assert IsSpace(c) ==> Run(s, [], ['a'], false, NUL) == Run(['b'], [['a']], [], true, NUL);
    assert s[0] == c && s[1] == 'b' && ['a'] + ['b'] == ['a', 'b'];
    assert c == '\\' ==> Run(s, [], ['a'], false, NUL) == Run(s[2..], [], ['a'] + [s[1]], false, NUL);
  }

  // ----- Parsing undoes joining -----

  /** How to write a character so that it stands for itself. */
  function Quoted(c: char): string {
    if IsQuote(c) || c == '$' then ['\\', c]
    else if c == '\\' then ['\\', '\\', '\\', '\\']
    else if IsSpace(c) then ['\\', '\\', c]
    else [c]
  }

  /** The same once backslashes have been eliminated. */
  function Kept(c: char): string {
    if IsQuote(c) || c == '$' || c == '\\' || IsSpace(c) then ['\\', c] else [c]
  }

  function QuotedWord(w: string): string {
    if w == [] then [] else Quoted(w[0]) + QuotedWord(w[1..])
  }

  function KeptWord(w: string): string {
    if w == [] then [] else Kept(w[0]) + KeptWord(w[1..])
  }

  function QuotedWords(ws: seq<string>): (r: seq<string>)
    ensures |r| == |ws|
  {
    if ws == [] then [] else [QuotedWord(ws[0])] + QuotedWords(ws[1..])
  }

  function KeptWords(ws: seq<string>): (r: seq<string>)
    ensures |r| == |ws|
  {
    if ws == [] then [] else [KeptWord(ws[0])] + KeptWords(ws[1..])
  }

  lemma UnescapeQuoted(c: char, rest: string)
    ensures Unescape(Quoted(c) + rest) == Kept(c) + Unescape(rest)
  {
    hide IsSpace, OctalEscape, HexEscape, Digit;
    var s := Quoted(c) + rest;
    if IsQuote(c) || c == '$' {
      assert s[1..] == [c] + rest && s[1..][1..] == rest;
      assert EscapeAt(s[1..]) == Escape(['\\', c], 1);
    } else if c == '\\' {
      var t := s[1..][1..];
      assert EscapeAt(s[1..]) == Escape(['\\'], 1);
      assert Unescape(s) == ['\\'] + Unescape(t);
      assert t[1..][1..] == rest && EscapeAt(t[1..]) == Escape(['\\'], 1);
      assert Unescape(t) == ['\\'] + Unescape(rest);
    } else if IsSpace(c) {
      var t := s[1..][1..];
      assert EscapeAt(s[1..]) == Escape(['\\'], 1);
      assert t == [c] + rest && t[1..] == rest;
      assert Unescape(s) == ['\\'] + Unescape(t);
    } else {
      assert s[1..] == rest;
    }
  }

  lemma {:induction false} UnescapeWord(w: string, rest: string)
    ensures Unescape(QuotedWord(w) + rest) == KeptWord(w) + Unescape(rest)
  {
    if w == [] {
      assert QuotedWord(w) + rest == rest;
    } else {
      var tail := QuotedWord(w[1..]) + rest;
      assert QuotedWord(w) + rest == Quoted(w[0]) + tail;
      UnescapeQuoted(w[0], tail);
      UnescapeWord(w[1..], rest);
    }
  }

  lemma UnescapeBlank(rest: string)
    ensures Unescape(" " + rest) == " " + Unescape(rest)
  {
    assert (" " + rest)[1..] == rest;
  }

  lemma {:induction false} UnescapeJoin(ws: seq<string>)
    ensures Unescape(Join(QuotedWords(ws))) == Join(KeptWords(ws))
  {
    hide Unescape, QuotedWord, KeptWord;
    UnescapeNothing();
    if |ws| == 1 {
      assert QuotedWords(ws) == [QuotedWord(ws[0])] && KeptWords(ws) == [KeptWord(ws[0])];
      UnescapeWord(ws[0], []);
      assert QuotedWord(ws[0]) + [] == QuotedWord(ws[0]) && KeptWord(ws[0]) + [] == KeptWord(ws[0]);
    } else if |ws| > 1 {
      var rest := Join(QuotedWords(ws[1..]));
      UnescapeJoin(ws[1..]);
      assert QuotedWords(ws)[1..] == QuotedWords(ws[1..]) && KeptWords(ws)[1..] == KeptWords(ws[1..]);
      assert Join(QuotedWords(ws)) == QuotedWord(ws[0]) + (" " + rest);
      UnescapeWord(ws[0], " " + rest);
      UnescapeBlank(rest);
    }
  }

  lemma UnescapeNothing()
    ensures Unescape([]) == []
  {
  }

  lemma RunKept(c: char, tail: string, args: seq<string>, buf: string)
    ensures Run(Kept(c) + tail, args, buf, false, NUL)
         == if |buf| == PARSE_BUFSIZE - 1 then Fail else Run(tail, args, buf + [c], false, NUL)
  {
    hide IsSpace, IsQuote;
    assert (Kept(c) + tail)[|Kept(c)|..] == tail;
  }

  /** Reading a word appends it to what has been collected, if there is room. */
  lemma {:induction false} RunWord(w: string, rest: string, args: seq<string>, buf: string)
    requires |buf| < PARSE_BUFSIZE
    ensures Run(KeptWord(w) + rest, args, buf, false, NUL)
         == if |buf| + |w| < PARSE_BUFSIZE then Run(rest, args, buf + w, false, NUL) else Fail
    decreases |w|
  {
    hide Run, Kept;
    if w == [] {
      assert KeptWord(w) + rest == rest && buf + w == buf;
    } else {
      var p, tail := KeptWord(w) + rest, KeptWord(w[1..]) + rest;
      assert p == Kept(w[0]) + tail;
      RunKept(w[0], tail, args, buf);
      if |buf| < PARSE_BUFSIZE - 1 {
        RunWord(w[1..], rest, args, buf + [w[0]]);
        assert buf + [w[0]] + w[1..] == buf + w;
      }
    }
  }

  lemma KeptStarts(w: string, rest: string)
    requires w != []
    ensures KeptWord(w) != [] && !IsSpace(KeptWord(w)[0]) && (KeptWord(w) + rest)[0] == KeptWord(w)[0]
  {
  }

  /** Between words. */
  lemma RunBlank(w: string, rest: string, args: seq<string>)
    requires w != []
    ensures Run(" " + rest, args, w, false, NUL) == if |args| >= MAXARGS then Fail
            else Run(rest, args + [w], [], true, NUL)
  {
    assert (" " + rest)[1..] == rest;
  }

  lemma RunAtEnd(args: seq<string>, buf: string)
    ensures Run([], args, buf, false, NUL) == Finish(args, buf)
  {
  }

  lemma RunStartsWord(p: string, args: seq<string>, white: bool)
    requires p != [] && !IsSpace(p[0])
    ensures Run(p, args, [], white, NUL) == Run(p, args, [], false, NUL)
  {
  }

  /** What a line of the words `ws` comes to, after the words `args`. */
  function Expected(args: seq<string>, ws: seq<string>): Outcome {
    if |args| + |ws| > MAXARGS || exists w <- ws :: |w| >= PARSE_BUFSIZE then Fail
    else if |args| + |ws| == MAXARGS then Overrun
    else Args(args + ws)
  }

  lemma {:induction false} RunJoin(ws: seq<string>, args: seq<string>, white: bool)
    requires ws != [] && (forall w <- ws :: w != []) && |args| <= MAXARGS
    ensures Run(Join(KeptWords(ws)), args, [], white, NUL) == Expected(args, ws)
    decreases |ws|
  {
    hide Run, KeptWord, IsSpace;
    var w := ws[0];
    var rest := if |ws| == 1 then [] else " " + Join(KeptWords(ws[1..]));
    var p := Join(KeptWords(ws));
    assert KeptWords(ws)[1..] == KeptWords(ws[1..]);
    assert p == KeptWord(w) + rest;
    assert w in ws;
    KeptStarts(w, rest);
    RunStartsWord(p, args, white);
    RunWord(w, rest, args, []);
    assert [] + w == w;
    assert forall v :: v in ws <==> v == w || v in ws[1..];
    if |w| < PARSE_BUFSIZE {
      if |ws| == 1 {
        RunAtEnd(args, w);
        assert args + [w] == args + ws;
      } else {
        RunBlank(w, Join(KeptWords(ws[1..])), args);
        if |args| < MAXARGS {
          RunJoin(ws[1..], args + [w], true);
          assert args + [w] + ws[1..] == args + ws;
        }
      }
    }
  }

  /** The outcome of every line of words, written with backslashes as needed and joined. */
  lemma ParseOfJoin(ws: seq<string>)
    requires ws != [] && forall w <- ws :: w != [] && NUL !in w
    ensures Parsed(Some(Join(QuotedWords(ws)))) == Expected([], ws)
  {
    hide Run, Unescape, Join, QuotedWords, KeptWords, Expected;
    UnescapeJoin(ws);
    NoNul(ws);
    RunJoin(ws, [], false);
  }

  /** Any words at all, written with backslashes as needed and joined, are parsed back, exactly
      when there are some but fewer than 20 of them and each is shorter than 1024. */
  lemma ParseUndoesJoin(ws: seq<string>)
    requires forall w <- ws :: w != [] && NUL !in w
    ensures Parsed(if ws == [] then None else Some(Join(QuotedWords(ws)))) == Args(ws)
            <==> 0 < |ws| < MAXARGS && forall w <- ws :: |w| < PARSE_BUFSIZE
  {
    hide Run, Unescape, Join, QuotedWords;
    if ws != [] {
      ParseOfJoin(ws);
      assert [] + ws == ws;
    }
  }

  /** The vector's terminator falls outside it exactly when there are 20 words and each is
      shorter than 1024. */
  lemma OverrunExact(ws: seq<string>)
    requires ws != [] && forall w <- ws :: w != [] && NUL !in w
    ensures Parsed(Some(Join(QuotedWords(ws)))) == Overrun <==> |ws| == MAXARGS && forall w <- ws :: |w| < PARSE_BUFSIZE
  {
    hide Run, Unescape, Join, QuotedWords;
    ParseOfJoin(ws);
  }

  /** Such a line, and one with a word more, which fails. */
  lemma TwentyWords()
    ensures Parsed(Some("a a a a a a a a a a a a a a a a a a a a")) == Overrun
    ensures Parsed(Some("a a a a a a a a a a a a a a a a a a a a a")) == Fail
  {
    hide Run, Unescape, Join, QuotedWords, Parsed;
    LineOfAs(20);
    LineOfAs(21);
    assert Line(20) == "a a a a a a a a a a a a a a a a a a a a";
    assert Line(21) == "a a a a a a a a a a a a a a a a a a a a a";
  }

  /** A line of `n` words "a". */
  function Line(n: nat): string
    requires n > 0
  {
    seq(2 * n - 1, i => if i % 2 == 0 then 'a' else ' ')
  }

  function As(n: nat): (ws: seq<string>)
    ensures |ws| == n && forall i :: 0 <= i < n ==> ws[i] == "a"
  {
    seq(n, _ => "a")
  }

  lemma {:induction false} JoinAs(n: nat)
    requires n > 0
    ensures Join(As(n)) == Line(n)
  {
    if n > 1 {
      assert As(n)[1..] == As(n - 1);
      JoinAs(n - 1);
      assert "a" + " " + Line(n - 1) == Line(n);
    }
  }

  lemma LineOfAs(n: nat)
    requires n > 0
    ensures Parsed(Some(Line(n))) == Expected([], As(n))
    ensures Expected([], As(n)) == if n > MAXARGS then Fail else if n == MAXARGS then Overrun else Args(As(n))
  {
    hide Run, Unescape, Parsed;
    assert forall w <- As(n) :: Plain(w);
    assert [] + As(n) == As(n);
    PlainUnquoted(As(n));
    JoinAs(n);
    ParseOfJoin(As(n));
  }

  /** Nothing in a word that backslash or parse would treat specially. */
  predicate Plain(w: string) {
    w != [] && forall c <- w :: c != NUL && c != '\\' && c != '$' && !IsQuote(c) && !IsSpace(c)
  }

  /** Plain words need no backslashes: parse returns what unargv was given. */
  lemma ParseUndoesUnargv(ws: seq<string>)
    requires forall w <- ws :: Plain(w)
    ensures Parsed(if ws == [] then None else Some(Join(ws))) == Args(ws)
            <==> 0 < |ws| < MAXARGS && forall w <- ws :: |w| < PARSE_BUFSIZE
  {
    forall w | w in ws ensures NUL !in w {
      assert Plain(w);
    }
    PlainUnquoted(ws);
    ParseUndoesJoin(ws);
  }

  lemma {:induction false} PlainWord(w: string)
    requires w == [] || Plain(w)
    ensures QuotedWord(w) == w
  {
    if w != [] {
      PlainWord(w[1..]);
    }
  }

  lemma {:induction false} PlainUnquoted(ws: seq<string>)
    requires forall w <- ws :: Plain(w)
    ensures QuotedWords(ws) == ws
  {
    if ws != [] {
      PlainWord(ws[0]);
      PlainUnquoted(ws[1..]);
    }
  }

  lemma {:induction false} NoNulWord(w: string)
    requires NUL !in w
    ensures NUL !in KeptWord(w)
  {
    if w != [] {
      NoNulWord(w[1..]);
    }
  }

  lemma {:induction false} NoNul(ws: seq<string>)
    requires forall w <- ws :: NUL !in w
    ensures NUL !in Join(KeptWords(ws))
  {
    if ws != [] {
      NoNulWord(ws[0]);
      NoNul(ws[1..]);
    }
  }
}
