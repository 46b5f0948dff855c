/** `binary_escape_string` and `extract_binary_string`: byte strings are written with `\xHH` for
    every byte that does not print, wrapped in `'B"(` and `)"'`, and read back exactly. */
module BinaryStrings {
  import opened Text
  import opened Escapes

  /** `isprint`; the locale decides, so every choice is covered. */
  type Printable = char -> bool

  /** `std::hex` of one byte, padded to two digits. */
  function Hex2(c: char): (h: string)
    requires IsByte(c)
    ensures |h| == 2 && IsHex(h[0]) && IsHex(h[1])
    ensures HexConvert(h[0]) * 16 + HexConvert(h[1]) == c as int
  {
    [HexDigit(c as int / 16), HexDigit(c as int % 16)]
  }

  function Hex4(c: char): (h: string)
    requires IsByte(c)
    ensures |h| == 4
  {
    ['\\', 'x'] + Hex2(c)
  }

  predicate EndsInSlash(s: string) {
    s != [] && s[|s| - 1] == '\\'
  }

  /** What the first pass writes for `c` when `afterSlash` says that the text so far ends in a backslash. */
  function EscapeByte(p: Printable, c: char, afterSlash: bool): (e: string)
    requires IsByte(c)
    ensures e != []
    ensures EndsInSlash(e) <==> e == "\\"
  {
    if !p(c) || ((c == 'x' || c == 'X') && afterSlash) then Hex4(c) else [c]
  }

  function FirstPass(p: Printable, s: string, afterSlash: bool): (out: string)
    requires IsBytes(s)
  {
    if s == [] then []
    else
      var e := EscapeByte(p, s[0], afterSlash);
      e + FirstPass(p, s[1..], EndsInSlash(e))
  }

  /** The second pass: every `'` becomes `\x27`. */
  function SecondPass(s: string): string {
    if s == [] then [] else EscapeQuote(s[0]) + SecondPass(s[1..])
  }

  function EscapeQuote(c: char): string {
    if c == '\'' then "\\x27" else [c]
  }

  const OPENING := "'B\"("
  const CLOSING := ")\"'"

  function BinaryEscape(p: Printable, s: string, force: bool): string
    requires IsBytes(s)
  {
    var escaped := FirstPass(p, s, false);
    if escaped != s || force then OPENING + SecondPass(escaped) + CLOSING else escaped
  }

  method BinaryEscapeString(p: Printable, s: string, force: bool) returns (escaped: string)
    requires IsBytes(s)
    ensures escaped == BinaryEscape(p, s, force)
  {
    escaped := [];
    assert s[0..] == s;
    for i := 0 to |s|
      invariant escaped + FirstPass(p, s[i..], EndsInSlash(escaped)) == FirstPass(p, s, false)
    {
      FirstPassStep(p, s[i..], escaped);
      assert s[i..][1..] == s[i + 1..];
      escaped := AppendEscaped(p, s[i], escaped);
    }
    assert escaped == FirstPass(p, s, false);
    if escaped != s || force {
      escaped := EscapeQuotes(escaped);
      escaped := OPENING + escaped;
      escaped := escaped + CLOSING;
    }
  }

  /** The body of the first loop. */
  method AppendEscaped(p: Printable, c: char, before: string) returns (escaped: string)
    requires IsByte(c)
    ensures escaped == before + EscapeByte(p, c, EndsInSlash(before))
  {
    escaped := before;
    if !p(c) {
      escaped := escaped + (['\\', 'x'] + Hex2(c));
    } else if c == 'x' || c == 'X' {
      if escaped != [] && escaped[|escaped| - 1] == '\\' {
        escaped := escaped + (['\\', 'x'] + if c == 'x' then "78" else "58");
        assert Hex2('x') == "78" && Hex2('X') == "58";
      } else {
        escaped := escaped + [c];
      }
    } else {
      escaped := escaped + [c];
    }
  }

  lemma FirstPassStep(p: Printable, s: string, before: string)
    requires IsBytes(s) && s != []
    ensures var after := before + EscapeByte(p, s[0], EndsInSlash(before));
      before + FirstPass(p, s, EndsInSlash(before)) == after + FirstPass(p, s[1..], EndsInSlash(after))
  {
    var e := EscapeByte(p, s[0], EndsInSlash(before));
    var after := before + e;
    assert after[|after| - 1] == e[|e| - 1];
    Associate(before, e, FirstPass(p, s[1..], EndsInSlash(e)));
  }

  lemma {:induction false} SecondPassAppend(a: string, b: string)
    ensures SecondPass(a + b) == SecondPass(a) + SecondPass(b)
  {
    if a == [] {
      assert a + b == b;
    } else {
      SecondPassAppend(a[1..], b);
      var ab := a + b;
      assert ab[1..] == a[1..] + b && ab[0] == a[0];
      Associate(EscapeQuote(a[0]), SecondPass(a[1..]), SecondPass(b));
    }
  }

  lemma {:induction false} SecondPassWithoutQuotes(s: string)
    requires '\'' !in s
    ensures SecondPass(s) == s
  {
    if s != [] {
      SecondPassWithoutQuotes(s[1..]);
    }
  }

  lemma {:induction false} SecondPassLeavesNoQuote(s: string)
    ensures '\'' !in SecondPass(s)
  {
    if s != [] {
      SecondPassLeavesNoQuote(s[1..]);
    }
  }

  /** The text when both passes are through with its first `done` characters. */
  function HalfEscaped(s: string, done: nat): string
    requires done <= |s|
  {
    s[..done] + SecondPass(s[done..])
  }

  method ReplaceQuote(s: string, ghost done: nat, loc: nat) returns (escaped: string)
    requires done <= loc < |s| && s[loc] == '\'' && forall j :: done <= j < loc ==> s[j] != '\''
    ensures |escaped| == |s| + 3 && HalfEscaped(escaped, loc + 4) == HalfEscaped(s, done)
  {
    escaped := s[..loc] + ['\\'] + s[loc + 1..];
    escaped := escaped[..loc + 1] + "x27" + escaped[loc + 1..];
    assert escaped == (s[..loc] + "\\x27") + s[loc + 1..];
    QuoteReplaced(s, done, loc);
    assert escaped[..loc + 4] == s[..loc] + "\\x27" && escaped[loc + 4..] == s[loc + 1..];
  }

  /** The in-place loop over `find('\'')`: the search resumes behind the four characters just written. */
  method EscapeQuotes(s: string) returns (escaped: string)
    ensures escaped == SecondPass(s)
  {
    escaped := s;
    var loc := Find(escaped, '\'', 0);
    ghost var done: nat := 0;
    assert HalfEscaped(s, 0) == SecondPass(s) by {
      assert s[..0] == [] && s[0..] == s;
    }
    while loc < |escaped|
      invariant done <= |escaped| && loc == Find(escaped, '\'', done)
      invariant HalfEscaped(escaped, done) == SecondPass(s)
      decreases |escaped| - done
    {
      escaped := ReplaceQuote(escaped, done, loc);
      done := loc + 4;
      loc := Find(escaped, '\'', loc + 4);
    }
    AllEscaped(escaped, done);
  }

  lemma AllEscaped(s: string, done: nat)
    requires done <= |s| && forall j :: done <= j < |s| ==> s[j] != '\''
    ensures HalfEscaped(s, done) == s
  {
    SecondPassWithoutQuotes(s[done..]);
    assert s[..done] + s[done..] == s;
  }

  lemma QuoteReplaced(s: string, done: nat, loc: nat)
    requires done <= loc < |s| && s[loc] == '\'' && forall j :: done <= j < loc ==> s[j] != '\''
    ensures HalfEscaped(s, done) == s[..loc] + "\\x27" + SecondPass(s[loc + 1..])
  {
    var plain, quoted := s[done..loc], s[loc..];
    assert s[done..] == plain + quoted && quoted[1..] == s[loc + 1..];
    SecondPassAppend(plain, quoted);
    SecondPassWithoutQuotes(plain);
    assert s[..done] + plain == s[..loc];
    Associate(s[..done], plain, SecondPass(quoted));
    Associate(s[..loc], "\\x27", SecondPass(s[loc + 1..]));
  }

  predicate IsHexEscape(s: string, i: nat)
    requires i < |s|
  {
    && s[i] == '\\' && (At(s, i + 1) == 'x' || At(s, i + 1) == 'X')
    && IsHex(At(s, i + 2)) && IsHex(At(s, i + 3))
  }

  function ExtractBetween(s: string, i: nat, end: nat): string
    requires end <= |s|
    decreases end - i
  {
    if i >= end then []
    else if IsHexEscape(s, i) then
      [(HexConvert(s[i + 2]) * 16 + HexConvert(s[i + 3])) as char] + ExtractBetween(s, i + 4, end)
    else [s[i]] + ExtractBetween(s, i + 1, end)
  }

  /** Sizes of the opening and closing mark that `s` carries, or zero. */
  function Marks(s: string): (m: (nat, nat))
    ensures m.0 + m.1 <= |s|
  {
    if |s| >= 3 && s[..3] == "B\"(" && s[|s| - 2..] == ")\"" then
      assert s[|s| - 2..][0] == s[|s| - 2] && s[..3][1] == s[1] && s[..3][2] == s[2];
      (3, 2)
    else if |s| >= 4 && s[..4] == OPENING && s[|s| - 3..] == CLOSING then
      assert s[|s| - 3..][0] == s[|s| - 3] && s[..4][1] == s[1] && s[..4][2] == s[2] && s[..4][3] == s[3];
      (4, 3)
    else (0, 0)
  }

  predicate IsBinaryEscaped(s: string) {
    Marks(s).0 > 0
  }

  function Extract(s: string): string {
    if !IsBinaryEscaped(s) then s else ExtractBetween(s, Marks(s).0, |s| - Marks(s).1)
  }

  method ExtractBinaryString(s: string) returns (out: string)
    ensures out == Extract(s)
  {
    var start, tail := Marks(s).0, Marks(s).1;
    if start == 0 {
      return s;
    }
    out := [];
    var loc := start;
    ghost var end := |s| - tail;
    while loc < |s| - tail
      invariant start <= loc
      invariant out + ExtractBetween(s, loc, end) == ExtractBetween(s, start, end)
    {
      var c, next := ExtractOne(s, loc, end);
      Associate(out, [c], ExtractBetween(s, next, end));
      out, loc := out + [c], next;
    }
  }

  /** The body of the loop: the character that stands at `loc`, and where the next one starts. */
  method ExtractOne(s: string, loc: nat, ghost end: nat) returns (c: char, next: nat)
    requires loc < end <= |s|
    ensures next > loc && ExtractBetween(s, loc, end) == [c] + ExtractBetween(s, next, end)
  {
    if s[loc] == '\\' && (At(s, loc + 1) == 'x' || At(s, loc + 1) == 'X') {
      var res1 := HexConvert(At(s, loc + 2));
      var res2 := HexConvert(At(s, loc + 3));
      if 0 <= res1 <= 0x0F && 0 <= res2 <= 0x0F {
        return (res1 * 16 + res2) as char, loc + 4;
      }
    }
    return s[loc], loc + 1;
  }

  /** What both passes make of one byte. */
  function Head(p: Printable, c: char, afterSlash: bool): (h: string)
    requires IsByte(c)
    ensures |h| == 1 || |h| == 4
    ensures h == "\\" ==> c == '\\'
  {
    if !p(c) || c == '\'' || ((c == 'x' || c == 'X') && afterSlash) then Hex4(c) else [c]
  }

  /** Both passes at once. */
  function Form(p: Printable, s: string, afterSlash: bool): string
    requires IsBytes(s)
  {
    if s == [] then []
    else
      var h := Head(p, s[0], afterSlash);
      h + Form(p, s[1..], h == "\\")
  }

  lemma HeadIsBothPasses(p: Printable, c: char, afterSlash: bool)
    requires IsByte(c)
    ensures var e := EscapeByte(p, c, afterSlash);
      SecondPass(e) == Head(p, c, afterSlash) && (EndsInSlash(e) <==> Head(p, c, afterSlash) == "\\")
  {
    var e := EscapeByte(p, c, afterSlash);
    if e == "'" {
      assert SecondPass(e) == "\\x27" == Hex4(c);
    } else {
      SecondPassWithoutQuotes(e);
    }
  }

  lemma {:induction false} FormIsBothPasses(p: Printable, s: string, afterSlash: bool)
    requires IsBytes(s)
    ensures SecondPass(FirstPass(p, s, afterSlash)) == Form(p, s, afterSlash)
    decreases |s|
  {
    if s != [] {
      var e := EscapeByte(p, s[0], afterSlash);
      HeadIsBothPasses(p, s[0], afterSlash);
      SecondPassAppend(e, FirstPass(p, s[1..], EndsInSlash(e)));
      FormIsBothPasses(p, s[1..], EndsInSlash(e));
    }
  }

  lemma FormParts(p: Printable, s: string, afterSlash: bool, t: string, i: nat, h: string, rest: string)
    requires IsBytes(s) && s != [] && Holds(t, i, Form(p, s, afterSlash))
    requires h == Head(p, s[0], afterSlash) && rest == Form(p, s[1..], h == "\\")
    ensures Holds(t, i, h) && Holds(t, i + |h|, rest) && |Form(p, s, afterSlash)| == |h| + |rest|
  {
    HoldsParts(t, i, h, rest);
  }

  /** A backslash in front of `i` does not turn what stands there into a hexadecimal escape. */
  predicate SafeBehind(afterSlash: bool, t: string, i: nat) {
    afterSlash ==> i < |t| && t[i] != 'x' && t[i] != 'X'
  }

  /** Reading the escaped form of `s` up to the closing mark gives back `s`. */
  lemma {:induction false} ExtractForm(p: Printable, s: string, afterSlash: bool, t: string, i: nat, end: nat)
    requires IsBytes(s) && Holds(t, i, Form(p, s, afterSlash))
    requires end == i + |Form(p, s, afterSlash)| < |t| && t[end] == ')'
    ensures ExtractBetween(t, i, end) == s && SafeBehind(afterSlash, t, i)
    decreases |s|
  {
    if s != [] {
      var h := Head(p, s[0], afterSlash);
      FormParts(p, s, afterSlash, t, i, h, Form(p, s[1..], h == "\\"));
      ExtractForm(p, s[1..], h == "\\", t, i + |h|, end);
      ExtractHead(p, s, afterSlash, t, i, end, h);
    }
  }

  lemma ExtractHead(p: Printable, s: string, afterSlash: bool, t: string, i: nat, end: nat, h: string)
    requires s != [] && IsByte(s[0]) && h == Head(p, s[0], afterSlash) && Holds(t, i, h) && i + |h| <= end < |t|
    requires SafeBehind(h == "\\", t, i + |h|) && ExtractBetween(t, i + |h|, end) == s[1..]
    ensures ExtractBetween(t, i, end) == s && SafeBehind(afterSlash, t, i)
  {
    assert t[i] == h[0];
    if |h| == 1 {
      ExtractPlain(t, i, end);
    } else {
      ExtractHex(t, i, end, s[0]);
    }
    assert [s[0]] + s[1..] == s;
  }

  lemma ExtractPlain(t: string, i: nat, end: nat)
    requires i < end < |t| && (t[i] == '\\' ==> t[i + 1] != 'x' && t[i + 1] != 'X')
    ensures ExtractBetween(t, i, end) == [t[i]] + ExtractBetween(t, i + 1, end)
  {
  }

  lemma ExtractHex(t: string, i: nat, end: nat, c: char)
    requires IsByte(c) && i + 4 <= end <= |t| && Holds(t, i, Hex4(c))
    ensures ExtractBetween(t, i, end) == [c] + ExtractBetween(t, i + 4, end)
  {
    var h := Hex4(c);
    assert h[2] == Hex2(c)[0] && h[3] == Hex2(c)[1];
    assert t[i] == h[0] == '\\' && t[i + 1] == h[1] == 'x' && t[i + 2] == h[2] && t[i + 3] == h[3];
    HexEscapeRead(t, i, end, c);
  }

  lemma HexEscapeRead(t: string, i: nat, end: nat, c: char)
    requires IsByte(c) && i < end <= |t| && i + 3 < |t| && IsHexEscape(t, i)
    requires HexConvert(t[i + 2]) * 16 + HexConvert(t[i + 3]) == c as int
    ensures ExtractBetween(t, i, end) == [c] + ExtractBetween(t, i + 4, end)
  {
  }

  lemma Marked(body: string)
    ensures var t := OPENING + body + CLOSING;
      && Marks(t) == (4, 3) && |t| == |body| + 7
      && t[4..4 + |body|] == body && t[4 + |body|] == ')'
      && t[0] == '\'' && t[|t| - 1] == '\''
      && ('\'' !in body ==> '\'' !in t[1..|t| - 1])
  {
    var t := OPENING + body + CLOSING;
    assert t[..4] == OPENING && t[0] == '\'' && t[|t| - 3..] == CLOSING;
    assert t[..3][0] == t[0];
    assert t[1..|t| - 1] == "B\"(" + body + ")\"";
  }

  /** The binary form carries its marks, holds no `'` between them, and reads back, for every byte string. */
  lemma ExtractBinaryEscape(p: Printable, s: string, force: bool)
    requires IsBytes(s)
    requires force || FirstPass(p, s, false) != s
    ensures var escaped := BinaryEscape(p, s, force);
      && IsBinaryEscaped(escaped)
      && Extract(escaped) == s
      && |escaped| >= 7 && escaped[0] == '\'' && escaped[|escaped| - 1] == '\''
      && '\'' !in escaped[1..|escaped| - 1]
  {
    var body := SecondPass(FirstPass(p, s, false));
    Marked(body);
    SecondPassLeavesNoQuote(FirstPass(p, s, false));
    ExtractMarked(p, s, OPENING + body + CLOSING, 4, 4 + |body|);
  }

  lemma ExtractMarked(p: Printable, s: string, t: string, i: nat, end: nat)
    requires IsBytes(s) && i <= end < |t| && t[i..end] == SecondPass(FirstPass(p, s, false)) && t[end] == ')'
    ensures ExtractBetween(t, i, end) == s
  {
    FormIsBothPasses(p, s, false);
    assert Holds(t, i, t[i..end]);
    ExtractForm(p, s, false, t, i, end);
  }

  /** A byte that does not print forces the binary form. */
  lemma {:induction false} FirstPassChanges(p: Printable, s: string, i: nat, afterSlash: bool)
    requires IsBytes(s) && i < |s| && !p(s[i])
    ensures |FirstPass(p, s, afterSlash)| > |s|
    decreases |s|
  {
    var e := EscapeByte(p, s[0], afterSlash);
    if i > 0 {
      FirstPassChanges(p, s[1..], i - 1, EndsInSlash(e));
    } else {
      FirstPassGrows(p, s[1..], EndsInSlash(e));
    }
  }

  lemma {:induction false} FirstPassGrows(p: Printable, s: string, afterSlash: bool)
    requires IsBytes(s)
    ensures |FirstPass(p, s, afterSlash)| >= |s|
  {
    if s != [] {
      FirstPassGrows(p, s[1..], EndsInSlash(EscapeByte(p, s[0], afterSlash)));
    }
  }
}
