/** Reading undoes printing for configuration values: the proof of `ValuesRoundTrip`. */
module ConfigRoundTrip {
  import opened Text
  import opened Brackets
  import opened Splitting
  import opened Escapes
  import opened BinaryStrings
  import opened ConfigValues

  // ----- each printed form stands for itself -----

  lemma BareArgument(env: Platform, arg: string)
    requires arg != []
    requires IsKeyword(arg) || IsNumber(env, arg) || (|arg| >= 2 && IsRadixLiteral(arg))
    ensures Bare(arg)
  {
  }

  lemma {:induction false} AddEscapedIsQuotedBody(s: string)
    ensures QuotedBody(AddEscaped(s))
    ensures AddEscaped(s) != [] ==> AddEscaped(s)[0] != '"'
  {
    if s != [] {
      AddEscapedIsQuotedBody(s[1..]);
      var head, tail := EscapeChar(s[0]), AddEscaped(s[1..]);
      var whole := head + tail;
      assert AddEscaped(s) == whole && whole[|head|..] == tail;
    }
  }

  lemma {:induction false} AddEscapedWithoutSlash(s: string)
    requires '\\' !in AddEscaped(s)
    ensures AddEscaped(s) == s
  {
    if s != [] {
      var head, tail := EscapeChar(s[0]), AddEscaped(s[1..]);
      assert forall c :: c in head + tail <==> c in head || c in tail;
      AddEscapedWithoutSlash(s[1..]);
    }
  }

  lemma QuotedIsSelfClosing(body: string)
    requires QuotedBody(body)
    ensures SelfClosing("\"" + body + "\"")
  {
    var c := "\"" + body + "\"";
    forall suffix: string ensures SequenceEnd(c + suffix, 0, c[0]) == |c| - 1 {
      var s := c + suffix;
      assert Holds(s, 1, body) && s[1 + |body|] == '"';
      QuotedBodyEnds(s, 1, body);
    }
  }

  lemma LiteralIsSelfClosing(body: string)
    requires '\'' !in body
    ensures SelfClosing("'" + body + "'")
  {
    var c := "'" + body + "'";
    forall suffix: string ensures SequenceEnd(c + suffix, 0, c[0]) == |c| - 1 {
      var s := c + suffix;
      assert Holds(s, 1, body) && s[0] == s[1 + |body|] == '\'';
      LiteralBodyEnds(s, 0, body);
    }
  }

  lemma MultiLineStart(c: string)
    requires StartsMultiLine(c)
    ensures |c| >= 3 && IsQuote(c[0]) && c[0] == c[1]
  {
    assert c[..3][0] == c[0] && c[..3][1] == c[1];
  }

  /** A printed form that can be joined, split off and stripped, giving `arg` back. */
  ghost predicate StandsFor(c: string, arg: string) {
    && Separable(c) && !StartsMultiLine(c)
    && (ProcessQuoted(c, false) == Ok((SecondaryArray(arg), true)) || (c == arg && c[0] != '['
        && ProcessQuoted(c, false) == Ok((arg, false))))
  }

  lemma BareIsNotBinary(arg: string)
    requires Bare(arg)
    ensures !IsBinaryEscaped(arg)
  {
    if |arg| >= 4 {
      assert arg[..3][1] == arg[1] && arg[..4][0] == arg[0];
    }
    if |arg| == 3 {
      assert arg[..3][1] == arg[1];
    }
  }

  lemma BareStandsForItself(arg: string)
    requires Bare(arg)
    ensures StandsFor(arg, arg)
  {
    if StartsMultiLine(arg) {
      MultiLineStart(arg);
    }
    BareIsNotBinary(arg);
  }

  lemma StringStandsFor(arg: string)
    ensures StandsFor("\"" + AddEscaped(arg) + "\"", arg)
  {
    var body := AddEscaped(arg);
    AddEscapedIsQuotedBody(arg);
    QuotedIsSelfClosing(body);
    RemoveAddEscaped(arg);
    if '\\' !in body {
      AddEscapedWithoutSlash(arg);
    }
    var c := "\"" + body + "\"";
    assert c[1..|c| - 1] == body && (body != [] ==> c[1] == body[0]);
    QuotedFormStandsFor(c, body, arg);
  }

  lemma QuotedFormStandsFor(c: string, body: string, arg: string)
    requires SelfClosing(c) && c[0] == '"' == c[|c| - 1] && c[1..|c| - 1] == body
    requires body != [] ==> c[1] != '"'
    requires if '\\' in body then RemoveEscaped(body) == Ok(arg) else body == arg
    ensures StandsFor(c, arg)
  {
    if StartsMultiLine(c) {
      MultiLineStart(c);
    }
    QuoteIsNotBinary(c);
  }

  lemma QuoteIsNotBinary(c: string)
    requires c != [] && c[0] == '"'
    ensures !IsBinaryEscaped(c)
  {
    if |c| >= 3 {
      assert c[..3][0] == c[0];
    }
    if |c| >= 4 {
      assert c[..4][0] == c[0];
    }
  }

  lemma ShortestStrings()
    ensures "\"" + AddEscaped([]) + "\"" == "\"\""
    ensures "\"" + AddEscaped("'") + "\"" == "\"'\""
  {
    assert "'"[1..] == [] && AddEscaped("'") == "'";
  }

  lemma CharStandsFor(x: char)
    requires x != '\''
    ensures StandsFor("'" + [x] + "'", [x])
  {
    LiteralIsSelfClosing([x]);
    var c := "'" + [x] + "'";
    assert c[..3] == c && c[1..2] == [x] && c[0] == '\'' && c[1] == x;
    if StartsMultiLine(c) {
      MultiLineStart(c);
    }
  }

  lemma BinaryFormStandsFor(c: string, arg: string)
    requires IsBinaryEscaped(c) && Extract(c) == arg
    requires |c| >= 7 && c[0] == '\'' == c[|c| - 1] && '\'' !in c[1..|c| - 1]
    ensures StandsFor(c, arg)
  {
    var body := c[1..|c| - 1];
    assert c == "'" + body + "'";
    LiteralIsSelfClosing(body);
    assert body[0] == c[1];
    if StartsMultiLine(c) {
      MultiLineStart(c);
    }
  }

  lemma BinaryStandsFor(p: Printable, arg: string, force: bool)
    requires IsBytes(arg) && (force || FirstPass(p, arg, false) != arg)
    ensures StandsFor(BinaryEscape(p, arg, force), arg)
  {
    ExtractBinaryEscape(p, arg, force);
    BinaryFormStandsFor(BinaryEscape(p, arg, force), arg);
  }

  lemma UnprintableStandsFor(env: Platform, arg: string, i: nat)
    requires IsBytes(arg) && i < |arg| && !env.prints(arg[i])
    ensures StandsFor(BinaryEscape(env.prints, arg, false), arg)
  {
    FirstPassChanges(env.prints, arg, i, false);
    BinaryStandsFor(env.prints, arg, false);
  }

  lemma ShortArgument(env: Platform, arg: string, disableMultiLine: bool)
    requires IsBytes(arg) && |arg| <= 1 && (arg == [] || !IsNumber(env, arg))
    ensures StandsFor(ConvertArg(env, arg, disableMultiLine), arg)
  {
    if arg == [] {
      StringStandsFor(arg);
      ShortestStrings();
    } else if !env.prints(arg[0]) {
      UnprintableStandsFor(env, arg, 0);
    } else if arg == "'" {
      StringStandsFor(arg);
      ShortestStrings();
    } else {
      CharStandsFor(arg[0]);
      assert arg == [arg[0]];
    }
  }

  lemma QuotedArgument(env: Platform, arg: string, disableMultiLine: bool)
    requires IsBytes(arg) && |arg| >= 2 && !PrintsMultiLine(env, arg, disableMultiLine)
    requires !IsKeyword(arg) && !IsNumber(env, arg) && !IsRadixLiteral(arg)
    ensures StandsFor(ConvertArg(env, arg, disableMultiLine), arg)
  {
    if !IsPrintable(env, arg) {
      var i :| 0 <= i < |arg| && !env.prints(arg[i]);
      UnprintableStandsFor(env, arg, i);
    } else if HasEscapable(arg) && |arg| > 100 && !disableMultiLine {
      BinaryStandsFor(env.prints, arg, true);
    } else {
      StringStandsFor(arg);
      if !HasEscapable(arg) {
        AddEscapedWithout(arg);
      }
    }
  }

  /** Whatever branch prints an argument, the printed form stands for it. */
  lemma ArgumentStandsFor(env: Platform, arg: string, disableMultiLine: bool)
    requires IsBytes(arg) && !PrintsMultiLine(env, arg, disableMultiLine)
    ensures StandsFor(ConvertArg(env, arg, disableMultiLine), arg)
  {
    if arg != [] && (IsKeyword(arg) || IsNumber(env, arg) || (|arg| >= 2 && IsRadixLiteral(arg))) {
      BareArgument(env, arg);
      BareStandsForItself(arg);
    } else if |arg| <= 1 {
      ShortArgument(env, arg, disableMultiLine);
    } else {
      QuotedArgument(env, arg, disableMultiLine);
    }
  }

  // ----- the option takes one result per item -----

  /** Reading pairs of equal characters from `i` up to the closing brackets. */
  lemma {:induction false} UndoubleDoubled(s: string, i: nat, m: string)
    requires i <= |s| && s[i..] == Doubled(m) + "]]"
    ensures Undouble(s, i) == Some(m)
    decreases |m|
  {
    var t := s[i..];
    if m != [] {
      assert Doubled(m) + "]]" == [m[0], m[0]] + (Doubled(m[1..]) + "]]");
      assert s[i] == t[0] && s[i + 1] == t[1] && s[i + 2..] == t[2..];
      UndoubleDoubled(s, i + 2, m[1..]);
      assert [m[0]] + m[1..] == m;
    }
  }

  lemma {:induction false} DoubledAppend(a: string, b: string)
    ensures Doubled(a + b) == Doubled(a) + Doubled(b)
  {
    if a == [] {
      assert a + b == b;
    } else {
      var ab := a + b;
      DoubledAppend(a[1..], b);
      assert ab[1..] == a[1..] + b;
      Associate([a[0], a[0]], Doubled(a[1..]), Doubled(b));
    }
  }

  /** `_add_result` undoes `handle_secondary_array`, for every text and every kind of option. */
  lemma SecondaryArrayUndone(rules: ResultRules, arg: string)
    requires rules.delimiter == '\0'
    ensures AddResult(rules, SecondaryArray(arg)) == [arg]
  {
    if |arg| >= 2 && arg[0] == '[' && arg[|arg| - 1] == ']' {
      var m := arg[1..|arg| - 1];
      assert arg[1..] == m + "]" && arg == "[" + m + "]";
      DoubledReads(m);
    }
  }

  lemma DoubledReads(m: string)
    ensures LooksDoubled("[[" + Doubled(m + "]")) && Undouble("[[" + Doubled(m + "]"), 2) == Some(m)
  {
    DoubledAppend(m, "]");
    assert "]"[1..] == [] && Doubled("]") == "]]";
    var s := "[[" + (Doubled(m) + "]]");
    assert s[2..] == Doubled(m) + "]]";
    UndoubleDoubled(s, 2, m);
  }

  lemma StandsForTaken(rules: ResultRules, c: string, arg: string)
    requires rules.delimiter == '\0' && StandsFor(c, arg)
    ensures ProcessQuoted(c, false).Ok? && AddResult(rules, ProcessQuoted(c, false).value.0) == [arg]
  {
    SecondaryArrayUndone(rules, arg);
  }

  lemma {:induction false} ItemsTaken(rules: ResultRules, cs: seq<string>, args: seq<string>)
    requires rules.delimiter == '\0' && |cs| == |args|
    requires forall i :: 0 <= i < |cs| ==> StandsFor(cs[i], args[i])
    ensures TakeItems(rules, cs) == Ok(args)
  {
    if cs != [] {
      StandsForTaken(rules, cs[0], args[0]);
      ItemsTaken(rules, cs[1..], args[1..]);
      assert args == [args[0]] + args[1..];
    }
  }

  // ----- the brackets around a list close at its end -----

  function Then(n: Nest, m: Nest): Nest {
    match n
    case Done => m
    case Plain(c, rest) => Plain(c, Then(rest, m))
    case Quoted(body, rest) => Quoted(body, Then(rest, m))
    case Literal(quote, body, rest) => Literal(quote, body, Then(rest, m))
    case Group(open, inner, rest) => Group(open, inner, Then(rest, m))
  }

  lemma {:induction false} ThenPrints(n: Nest, m: Nest, closer: char)
    requires WellNested(n, closer) && WellNested(m, closer)
    ensures WellNested(Then(n, m), closer) && Print(Then(n, m)) == Print(n) + Print(m)
    decreases n
  {
    if n.Done? {
      assert [] + Print(m) == Print(m);
    } else {
      ThenPrints(n.rest, m, closer);
      var before := match n
        case Plain(c, _) => [c]
        case Quoted(body, _) => ['"'] + body + ['"']
        case Literal(quote, body, _) => [quote] + body + [quote]
        case Group(open, inner, _) => [open] + Print(inner) + [Mate(open)];
      Associate(before, Print(n.rest), Print(m));
    }
  }

  lemma {:induction false} PlainNest(s: string) returns (n: Nest)
    requires forall i :: 0 <= i < |s| ==> !IsBracketChar(s[i]) && s[i] != ']'
    ensures WellNested(n, ']') && Print(n) == s
  {
    n := Done;
    if s != [] {
      var rest := PlainNest(s[1..]);
      n := Plain(s[0], rest);
    }
  }

  lemma SeparableNest(c: string) returns (n: Nest)
    requires Separable(c)
    ensures WellNested(n, ']') && Print(n) == c
  {
    if SelfClosing(c) {
      assert c + "" == c;
      assert SequenceEnd(c + "", 0, c[0]) == |c| - 1;
      var body := c[1..|c| - 1];
      assert c == [c[0]] + body + [c[|c| - 1]] + [];
      if c[0] == '"' {
        QuotedBodyRead(c, 1);
        n := Quoted(body, Done);
      } else {
        n := Literal(c[0], body, Done);
      }
    } else {
      n := PlainNest(c);
    }
  }

  lemma {:induction false} JoinNest(cs: seq<string>) returns (n: Nest)
    requires cs != [] && forall i :: 0 <= i < |cs| ==> Separable(cs[i])
    ensures WellNested(n, ']') && Print(n) == Join(cs)
  {
    n := SeparableNest(cs[0]);
    if |cs| == 1 {
      assert Join(cs) == cs[0] + [] == cs[0];
    } else {
      var comma := PlainNest(", ");
      var rest := JoinNest(cs[1..]);
      ThenPrints(comma, rest, ']');
      ThenPrints(n, Then(comma, rest), ']');
      n := Then(n, Then(comma, rest));
      Associate(", ", cs[1], JoinTail(cs[2..]));
      assert cs[1..][1..] == cs[2..];
    }
  }

  /** A printed list is one item when the value is cut at a comment mark: nothing in it is lost. */
  lemma BracketedStaysWhole(cs: seq<string>)
    requires cs != [] && forall i :: 0 <= i < |cs| ==> Separable(cs[i])
    ensures var w := "[" + Join(cs) + "]"; Trim(w) == w && SplitUp(w, '#') == [w]
  {
    var w := "[" + Join(cs) + "]";
    TrimIdentity(w);
    var n := JoinNest(cs);
    assert HoldsClosed(w, 1, Print(n), ']');
    DescendPrinted(w, 1, n, ']');
    ClosedIsOneItem(w, '#');
  }

  /** A text whose first character is closed by its last is one item. */
  lemma ClosedIsOneItem(w: string, delimiter: char)
    requires w != [] && IsBracketChar(w[0]) && SequenceEnd(w, 0, Mate(w[0])) == |w| - 1
    ensures SplitTrimmed(w, delimiter) == [w]
  {
    var nothing := Rest(w, ResumeAt(w, |w| - 1, delimiter));
    assert nothing == [] && w[..|w|] == w;
    assert SplitTrimmed(w, delimiter) == [w[..|w|]] + SplitTrimmed(nothing, delimiter);
  }

  // ----- the round trip -----

  predicate AllBytes(args: seq<string>) {
    forall i :: 0 <= i < |args| ==> IsBytes(args[i])
  }

  lemma ListItems(cs: seq<string>, hasComment: bool)
    requires cs != [] && forall i :: 0 <= i < |cs| ==> Separable(cs[i])
    ensures var w := "[" + Join(cs) + "]";
      !StartsMultiLine(Trim(w)) && ReadItems(w, hasComment) == cs
  {
    var w := "[" + Join(cs) + "]";
    BracketedStaysWhole(cs);
    SplitJoin(cs);
    assert w[1..|w| - 1] == Join(cs) && w[0] == '[' && w[|w| - 1] == ']';
  }

  lemma SingleItem(c: string, hasComment: bool)
    requires Separable(c) && c[0] != '[' && !StartsMultiLine(c)
    ensures !StartsMultiLine(Trim(c)) && ReadItems(c, hasComment) == [c]
  {
    SeparableEnds(c);
    TrimIdentity(c);
    SplitAlone(c, '#');
    SplitAlone(c, ',');
    SplitAlone(c, '\0');
  }

  /** Values round trip: for every non-empty list of byte strings, whatever the platform calls printable or
      a number and whether or not a comment mark occurs, reading the printed value gives back the list.
      Only the multi-line literal form is outside. */
  lemma ValuesRoundTrip(env: Platform, rules: ResultRules, args: seq<string>, hasComment: bool)
    requires args != [] && AllBytes(args) && rules.delimiter == '\0'
    requires |args| == 1 ==> !PrintsMultiLine(env, args[0], false)
    ensures !StartsMultiLine(Trim(Written(env, args)))
    ensures TakeItems(rules, ReadItems(Written(env, args), hasComment)) == Ok(args)
  {
    var several := |args| > 1;
    var cs := ConvertAll(env, args, several);
    forall i | 0 <= i < |args| ensures StandsFor(cs[i], args[i]) {
      ArgumentStandsFor(env, args[i], several);
    }
    ItemsTaken(rules, cs, args);
    if several {
      ListItems(cs, hasComment);
    } else {
      assert cs == [ConvertArg(env, args[0], false)];
      assert StandsFor(cs[0], args[0]);
      SingleItem(cs[0], hasComment);
    }
  }
}
