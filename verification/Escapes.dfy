/** Backslash escapes: `add_escaped_characters` and `remove_escaped_characters` are inverse on
    every string, and `\u` / `\U` escapes become well-formed UTF-8 exactly for the Unicode
    scalar values (RFC 3629, sections 3 and 4). */
module Escapes {
  import opened Text

  /** The entry of `escapedCharsCode()` at the index of `c` in `escapedChars()`. */
  function EscapeCode(c: char): Option<char> {
    if c == '\U{08}' then Some('b')
    else if c == '\t' then Some('t')
    else if c == '\n' then Some('n')
    else if c == '\U{0C}' then Some('f')
    else if c == '\r' then Some('r')
    else if c == '"' then Some('"')
    else if c == '\\' then Some('\\')
    else None
  }

  /** The entry of `escapedChars()` at the index of `c` in `escapedCharsCode()`. */
  function EscapedChar(c: char): Option<char> {
    if c == 'b' then Some('\U{08}')
    else if c == 't' then Some('\t')
    else if c == 'n' then Some('\n')
    else if c == 'f' then Some('\U{0C}')
    else if c == 'r' then Some('\r')
    else if c == '"' then Some('"')
    else if c == '\\' then Some('\\')
    else None
  }

  predicate HasEscapable(s: string) {
    exists i :: 0 <= i < |s| && EscapeCode(s[i]).Some?
  }

  function EscapeChar(c: char): string {
    match EscapeCode(c)
    case Some(code) => ['\\', code]
    case None => [c]
  }

  function AddEscaped(s: string): string {
    if s == [] then [] else EscapeChar(s[0]) + AddEscaped(s[1..])
  }

  method AddEscapedCharacters(s: string) returns (out: string)
    ensures out == AddEscaped(s)
  {
    out := [];
    for i := 0 to |s|
      invariant out + AddEscaped(s[i..]) == AddEscaped(s)
    {
      assert s[i..][1..] == s[i + 1..];
      Associate(out, EscapeChar(s[i]), AddEscaped(s[i + 1..]));
      match EscapeCode(s[i]) {
        case Some(code) => out := out + ['\\', code];
        case None => out := out + [s[i]];
      }
    }
  }

  /** `hexConvert`: -1 stands for the all-ones 32-bit value that a character without a value gets. */
  function HexConvert(c: char): int {
    if '0' <= c <= '9' then c as int - '0' as int
    else if 'A' <= c <= 'F' then c as int - 'A' as int + 10
    else if 'a' <= c <= 'f' then c as int - 'a' as int + 10
    else -1
  }

  predicate IsHex(c: char) {
    0 <= HexConvert(c) <= 15
  }

  predicate AllHex(s: string) {
    forall i :: 0 <= i < |s| ==> IsHex(s[i])
  }

  function Pow16(n: nat): (p: nat)
    ensures p >= 1
  {
    if n == 0 then 1 else 16 * Pow16(n - 1)
  }

  /** The number that a string of hexadecimal digits denotes, most significant digit first. */
  function HexValue(s: string): (v: nat)
    requires AllHex(s)
    ensures v < Pow16(|s|)
  {
    if s == [] then 0 else 16 * HexValue(s[..|s| - 1]) + HexConvert(s[|s| - 1])
  }

  /** The digit loop of `remove_escaped_characters`; the sum stays within 32 bits. */
  method ReadHex(digits: string) returns (code: Option<nat>)
    requires 1 <= |digits| <= 8
    ensures code == if AllHex(digits) then Some(HexValue(digits)) else None
    ensures code.Some? ==> code.value < 0x1_0000_0000
  {
    var sum: nat, mplier: nat := 0, Pow16(|digits| - 1);
    DigitsReadStart(digits);
    for i := 0 to |digits|
      invariant DigitsRead(digits, i, sum, mplier)
    {
      var res := HexConvert(digits[i]);
      if !(0 <= res <= 0x0F) {
        return None;
      }
      DigitsReadStep(digits, i, sum, mplier);
      sum, mplier := sum + res * mplier, mplier / 16;
    }
    DigitsReadDone(digits, sum, mplier);
    return Some(sum);
  }

  /** The first `i` digits are in `sum`, already scaled to their final weight. */
  ghost predicate DigitsRead(digits: string, i: nat, sum: nat, mplier: nat) {
    && i <= |digits| && AllHex(digits[..i])
    && sum == Scale(HexValue(digits[..i]), |digits| - i)
    && mplier == Pow16(|digits| - i) / 16
  }

  /** `v` with `n` more digits behind it. */
  function Scale(v: nat, n: nat): nat {
    if n == 0 then v else 16 * Scale(v, n - 1)
  }

  lemma {:induction false} ScaleStep(v: nat, res: nat, n: nat)
    ensures Scale(16 * v + res, n) == Scale(v, n + 1) + res * Pow16(n)
  {
    if n > 0 {
      ScaleStep(v, res, n - 1);
      assert res * (16 * Pow16(n - 1)) == 16 * (res * Pow16(n - 1));
    }
  }

  lemma {:induction false} ScaleZero(n: nat)
    ensures Scale(0, n) == 0
  {
    if n > 0 {
      ScaleZero(n - 1);
    }
  }

  lemma DigitsReadStart(digits: string)
    requires digits != []
    ensures DigitsRead(digits, 0, 0, Pow16(|digits| - 1))
  {
    ScaleZero(|digits|);
  }

  lemma DigitsReadDone(digits: string, sum: nat, mplier: nat)
    requires |digits| <= 8 && DigitsRead(digits, |digits|, sum, mplier)
    ensures AllHex(digits) && sum == HexValue(digits) < 0x1_0000_0000
  {
    assert digits[..|digits|] == digits;
    Pow16Monotone(|digits|, 8);
  }

  lemma DigitsReadStep(digits: string, i: nat, sum: nat, mplier: nat)
    requires i < |digits| && DigitsRead(digits, i, sum, mplier) && IsHex(digits[i])
    ensures DigitsRead(digits, i + 1, sum + HexConvert(digits[i]) * mplier, mplier / 16)
  {
    assert digits[..i + 1][..i] == digits[..i];
    ScaleStep(HexValue(digits[..i]), HexConvert(digits[i]), |digits| - i - 1);
  }

  lemma {:induction false} Pow16Monotone(m: nat, n: nat)
    requires m <= n
    ensures Pow16(m) <= Pow16(n)
    ensures Pow16(8) == 0x1_0000_0000
    decreases n - m
  {
    if m < n {
      Pow16Monotone(m + 1, n);
    }
  }

  predicate IsSurrogate(code: nat) {
    0xD800 <= code <= 0xDFFF
  }

  /** A Unicode scalar value: a code point that is not a surrogate. */
  predicate IsScalar(code: nat) {
    code <= 0x10FFFF && !IsSurrogate(code)
  }

  /** `append_codepoint`. Shifts and masks are written as quotients and remainders by powers of
      two, and `|` as a sum; `BitsAreSums` justifies the latter. */
  function Utf8(code: nat): (r: Result<string>)
    ensures r.Ok? ==> IsBytes(r.value)
  {
    if code < 0x80 then Ok([code as char])
    else if code < 0x800 then Ok([(0xC0 + code / 64) as char, (0x80 + code % 64) as char])
    else if code < 0x10000 then
      if 0xD800 <= code <= 0xDFFF then Err("surrogate")
      else Ok([(0xE0 + code / 4096) as char, (0x80 + code / 64 % 64) as char, (0x80 + code % 64) as char])
    else if code < 0x110000 then
      Ok([(0xF0 + code / 262144) as char, (0x80 + code / 4096 % 64) as char,
          (0x80 + code / 64 % 64) as char, (0x80 + code % 64) as char])
    else Err("above 0x10FFFF")
  }

  /** In 32-bit arithmetic, each `|` in `append_codepoint` joins disjoint bits. */
  lemma BitsAreSums(code: bv32)
    ensures code < 0x800 ==> 0xC0 | (code >> 6) == 0xC0 + (code >> 6)
    ensures code < 0x10000 ==> 0xE0 | (code >> 12) == 0xE0 + (code >> 12)
    ensures code < 0x110000 ==> 0xF0 | (code >> 18) == 0xF0 + (code >> 18)
    ensures 0x80 | (code & 0x3F) == 0x80 + (code & 0x3F)
    ensures code & 0x3F == code % 64 && code >> 6 == code / 64
    ensures code >> 12 == code / 4096 && code >> 18 == code / 262144
  {
  }

  /** What a run yields when `out` has been written already. */
  function Prepend(out: string, r: Result<string>): Result<string> {
    match r
    case Ok(tail) => Ok(out + tail)
    case Err(m) => Err(m)
  }

  lemma PrependPrepend(a: string, b: string, r: Result<string>)
    ensures Prepend(a, Prepend(b, r)) == Prepend(a + b, r)
    ensures Prepend([], r) == r
  {
    if r.Ok? {
      assert [] + r.value == r.value;
      assert a + (b + r.value) == (a + b) + r.value;
    }
  }

  /** One escape whose `count` digits follow the two characters `\u` or `\U`: its bytes. */
  function CodeBytes(s: string, count: nat): Result<string> {
    if |s| < 2 + count || !AllHex(s[2..2 + count]) then Err("hex codes") else Utf8(HexValue(s[2..2 + count]))
  }

  function RemoveEscaped(s: string): Result<string> {
    if s == [] then Ok([])
    else if s[0] != '\\' then Prepend([s[0]], RemoveEscaped(s[1..]))
    else if |s| < 2 then Err("invalid escape sequence")
    else if EscapedChar(s[1]).Some? then Prepend([EscapedChar(s[1]).value], RemoveEscaped(s[2..]))
    else if s[1] == 'u' || s[1] == 'U' then
      var count := if s[1] == 'u' then 4 else 8;
      match CodeBytes(s, count)
      case Err(m) => Err(m)
      case Ok(bytes) => Prepend(bytes, RemoveEscaped(s[2 + count..]))
    else if s[1] == '0' then Prepend(['\0'], RemoveEscaped(s[2..]))
    else Err("unrecognized escape sequence")
  }

  /** The branches for `\u` and `\U`. */
  method ReadCode(s: string, loc: nat, count: nat) returns (r: Result<string>)
    requires loc + 2 <= |s| && (count == 4 || count == 8)
    ensures r == CodeBytes(s[loc..], count)
  {
    if |s| - loc < 2 + count {
      return Err("hex codes");
    }
    var digits := s[loc + 2..loc + 2 + count];
    assert s[loc..][2..2 + count] == digits;
    var code := ReadHex(digits);
    r := if code.None? then Err("hex codes") else Utf8(code.value);
  }

  method RemoveEscapedCharacters(s: string) returns (r: Result<string>)
    ensures r == RemoveEscaped(s)
  {
    var out := [];
    var loc := 0;
    assert s[0..] == s;
    PrependPrepend([], [], RemoveEscaped(s));
    while loc < |s|
      invariant loc <= |s|
      invariant Prepend(out, RemoveEscaped(s[loc..])) == RemoveEscaped(s)
    {
      ghost var rest := s[loc..];
      if s[loc] == '\\' {
        if |s| - loc < 2 {
          return Err("invalid escape sequence");
        }
        assert rest[1] == s[loc + 1] && rest[2..] == s[loc + 2..];
        var plain := EscapedChar(s[loc + 1]);
        if plain.Some? {
          PrependPrepend(out, [plain.value], RemoveEscaped(s[loc + 2..]));
          out := out + [plain.value];
          loc := loc + 1;
        } else if s[loc + 1] == 'u' || s[loc + 1] == 'U' {
          var count := if s[loc + 1] == 'u' then 4 else 8;
          var bytes := ReadCode(s, loc, count);
          if bytes.Err? {
            return bytes;
          }
          assert rest[2 + count..] == s[loc + 2 + count..];
          PrependPrepend(out, bytes.value, RemoveEscaped(s[loc + 2 + count..]));
          out := out + bytes.value;
          loc := loc + 1 + count;
        } else if s[loc + 1] == '0' {
          PrependPrepend(out, ['\0'], RemoveEscaped(s[loc + 2..]));
          out := out + ['\0'];
          loc := loc + 1;
        } else {
          return Err("unrecognized escape sequence");
        }
      } else {
        assert rest[1..] == s[loc + 1..];
        PrependPrepend(out, [s[loc]], RemoveEscaped(s[loc + 1..]));
        out := out + [s[loc]];
      }
      loc := loc + 1;
    }
    assert s[loc..] == [] && out + [] == out;
    return Ok(out);
  }

  lemma EscapeCodeRoundTrip(c: char)
    ensures EscapeCode(c).Some? ==> EscapedChar(EscapeCode(c).value) == Some(c)
    ensures EscapeCode(c).None? ==> c != '\\'
  {
  }

  /** Unescaping undoes escaping, on every string. */
  lemma {:induction false} RemoveAddEscaped(s: string)
    ensures RemoveEscaped(AddEscaped(s)) == Ok(s)
  {
    if s != [] {
      RemoveAddEscaped(s[1..]);
      var head, tail := EscapeChar(s[0]), AddEscaped(s[1..]);
      var whole := head + tail;
      assert AddEscaped(s) == whole && whole[|head|..] == tail;
      assert [s[0]] + s[1..] == s;
      EscapeCodeRoundTrip(s[0]);
    }
  }

  lemma {:induction false} AddEscapedWithout(s: string)
    requires !HasEscapable(s)
    ensures AddEscaped(s) == s
  {
    if s != [] {
      assert EscapeCode(s[0]).None?;
      assert forall i :: 0 <= i < |s| - 1 ==> s[1..][i] == s[i + 1];
      AddEscapedWithout(s[1..]);
    }
  }

  // ----- `\u` and `\U` -----

  /** One escape of each length: `\uXXXX` or `\UXXXXXXXX`, digits in either case. */
  predicate EscapeDigits(d: string) {
    (|d| == 4 || |d| == 8) && AllHex(d)
  }

  predicate AllEscapes(digits: seq<string>) {
    forall i :: 0 <= i < |digits| ==> EscapeDigits(digits[i])
  }

  function WriteEscapes(digits: seq<string>): string {
    if digits == [] then []
    else ['\\', if |digits[0]| == 4 then 'u' else 'U'] + digits[0] + WriteEscapes(digits[1..])
  }

  function Codes(digits: seq<string>): (codes: seq<nat>)
    requires AllEscapes(digits)
    ensures |codes| == |digits|
  {
    if digits == [] then [] else [HexValue(digits[0])] + Codes(digits[1..])
  }

  predicate IsContinuation(c: char) {
    0x80 <= c as int < 0xC0
  }

  /** A continuation byte carries six bits. */
  function Low6(c: char): int {
    c as int - 0x80
  }

  /** The first character of a UTF-8 text and its length in bytes (RFC 3629): overlong forms,
      surrogates and values above 0x10FFFF are not UTF-8. */
  function DecodeOne(b: string): (r: Option<(nat, nat)>)
    ensures r.Some? ==> IsScalar(r.value.0) && 1 <= r.value.1 <= |b|
  {
    if b == [] then None
    else if b[0] as int < 0x80 then Some((b[0] as int, 1))
    else if 0xC0 <= b[0] as int < 0xE0 && |b| >= 2 && IsContinuation(b[1]) then
      var code := (b[0] as int - 0xC0) * 64 + Low6(b[1]);
      if code >= 0x80 then Some((code, 2)) else None
    else if 0xE0 <= b[0] as int < 0xF0 && |b| >= 3 && IsContinuation(b[1]) && IsContinuation(b[2]) then
      var code := (b[0] as int - 0xE0) * 4096 + Low6(b[1]) * 64 + Low6(b[2]);
      if code >= 0x800 && IsScalar(code) then Some((code, 3)) else None
    else if 0xF0 <= b[0] as int < 0xF8 && |b| >= 4
      && IsContinuation(b[1]) && IsContinuation(b[2]) && IsContinuation(b[3]) then
      var code := (b[0] as int - 0xF0) * 262144 + Low6(b[1]) * 4096 + Low6(b[2]) * 64 + Low6(b[3]);
      if code >= 0x10000 && IsScalar(code) then Some((code, 4)) else None
    else None
  }

  function DecodeUtf8(b: string): Option<seq<nat>>
    decreases |b|
  {
    if b == [] then Some([])
    else
      var first := DecodeOne(b);
      if first.None? then None
      else
        var rest := DecodeUtf8(b[first.value.1..]);
        if rest.None? then None else Some([first.value.0] + rest.value)
  }

  lemma SixBitGroups(code: nat)
    ensures code == code / 64 * 64 + code % 64
    ensures code == code / 4096 * 4096 + code / 64 % 64 * 64 + code % 64
    ensures code == code / 262144 * 262144 + code / 4096 % 64 * 4096 + code / 64 % 64 * 64 + code % 64
  {
    assert code / 64 / 64 == code / 4096 && code / 4096 / 64 == code / 262144;
  }

  /** A scalar value is encoded, anything else is refused, and the decoder reads back what was encoded. */
  lemma DecodeUtf8One(code: nat, rest: string)
    ensures Utf8(code).Ok? <==> IsScalar(code)
    ensures IsScalar(code) ==> DecodeOne(Utf8(code).value + rest) == Some((code, |Utf8(code).value|))
  {
    if IsScalar(code) {
      SixBitGroups(code);
      var bytes := Utf8(code).value;
      var text := bytes + rest;
      assert forall j :: 0 <= j < |bytes| ==> text[j] == bytes[j];
      if code < 0x80 {
      } else if code < 0x800 {
        DecodeTwo(code, text);
      } else if code < 0x10000 {
        DecodeThree(code, text);
      } else {
        DecodeFour(code, text);
      }
    }
  }

  lemma DecodeTwo(code: nat, text: string)
    requires 0x80 <= code < 0x800 && |text| >= 2 && code == code / 64 * 64 + code % 64
    requires text[0] as int == 0xC0 + code / 64 && text[1] as int == 0x80 + code % 64
    ensures DecodeOne(text) == Some((code, 2))
  {
  }

  lemma DecodeThree(code: nat, text: string)
    requires 0x800 <= code < 0x10000 && IsScalar(code) && |text| >= 3
    requires code == code / 4096 * 4096 + code / 64 % 64 * 64 + code % 64
    requires text[0] as int == 0xE0 + code / 4096
    requires text[1] as int == 0x80 + code / 64 % 64 && text[2] as int == 0x80 + code % 64
    ensures DecodeOne(text) == Some((code, 3))
  {
  }

  lemma DecodeFour(code: nat, text: string)
    requires 0x10000 <= code && IsScalar(code) && |text| >= 4
    requires code == code / 262144 * 262144 + code / 4096 % 64 * 4096 + code / 64 % 64 * 64 + code % 64
    requires text[0] as int == 0xF0 + code / 262144 && text[1] as int == 0x80 + code / 4096 % 64
    requires text[2] as int == 0x80 + code / 64 % 64 && text[3] as int == 0x80 + code % 64
    ensures DecodeOne(text) == Some((code, 4))
  {
  }

  /** Every sequence of scalar values written as escapes becomes the UTF-8 of that sequence;
      a sequence with a surrogate or a value above 0x10FFFF is refused. */
  lemma {:induction false} EscapesBecomeUtf8(digits: seq<string>)
    requires AllEscapes(digits)
    ensures RemoveEscaped(WriteEscapes(digits)).Ok? <==> forall c <- Codes(digits) :: IsScalar(c)
    ensures RemoveEscaped(WriteEscapes(digits)).Ok? ==>
      DecodeUtf8(RemoveEscaped(WriteEscapes(digits)).value) == Some(Codes(digits))
  {
    if digits != [] {
      var d, rest := digits[0], WriteEscapes(digits[1..]);
      var written := WriteEscapes(digits);
      
      assert written[2..2 + |d|] == d && written[2 + |d|..] == rest;
      assert forall c :: c in Codes(digits) <==> c == HexValue(d) || c in Codes(digits[1..]);
      EscapesBecomeUtf8(digits[1..]);
      EscapeThenRest(written, d, rest);
      var tail := RemoveEscaped(rest);
      if IsScalar(HexValue(d)) && tail.Ok? {
        DecodeUtf8One(HexValue(d), tail.value);
        var bytes := Utf8(HexValue(d)).value;
        assert (bytes + tail.value)[|bytes|..] == tail.value;
      } else {
        DecodeUtf8One(HexValue(d), []);
      }
    }
  }

  lemma EscapeThenRest(written: string, d: string, rest: string)
    requires EscapeDigits(d) && |written| == 2 + |d| + |rest|
    requires written[0] == '\\' && written[1] == (if |d| == 4 then 'u' else 'U')
    requires written[2..2 + |d|] == d && written[2 + |d|..] == rest
    ensures RemoveEscaped(written) == match Utf8(HexValue(d))
                                      case Err(m) => Err(m)
                                      case Ok(bytes) => Prepend(bytes, RemoveEscaped(rest))
  {
  }

  function HexDigit(v: nat): (c: char)
    requires v < 16
    ensures IsHex(c) && HexConvert(c) == v
  {
    if v < 10 then ('0' as int + v) as char else ('a' as int + v - 10) as char
  }

  /** Every number that fits has an escape: `count` digits denote it. */
  function HexDigits(v: nat, count: nat): (d: string)
    requires v < Pow16(count)
    ensures |d| == count && AllHex(d) && HexValue(d) == v
  {
    if count == 0 then []
    else
      var d := HexDigits(v / 16, count - 1) + [HexDigit(v % 16)];
      assert d[..count - 1] == HexDigits(v / 16, count - 1);
      d
  }
}
