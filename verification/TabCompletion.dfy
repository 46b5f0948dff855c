/** Tab completion in the console. Main results: `TabExtendsExactly`, `TypedWordBecomesCommonPrefix` and
    `MatchesAreTheCandidates`. */
module TabCompletion {
  import opened Text

  /** The parts of an option that completion looks at. */
  datatype Opt = Opt(positional: bool, lnames: seq<string>, snames: seq<string>, expectedMin: int, defaultStr: string)

  datatype App = App(name: string, subcommands: seq<App>, options: seq<Opt>)

  /** `Option::check_name` for a token that starts with a dash. */
  predicate CheckName(opt: Opt, t: string) {
    if |t| > 2 && t[0] == '-' && t[1] == '-' then t[2..] in opt.lnames
    else |t| > 1 && t[0] == '-' && t[1..] in opt.snames
  }

  predicate TakesValue(opt: Opt, t: string) {
    !opt.positional && CheckName(opt, t) && opt.expectedMin > 0
  }

  /** Where the traversal stands: the command whose arguments are being typed, how many of its positional arguments were
      given, and whether the next token is the value of a flag. */
  datatype Context = Context(app: App, provided: nat, skipNext: bool)

  /** Index of the first subcommand with this name. */
  function FindSub(subs: seq<App>, t: string, i: nat): (k: nat)
    requires i <= |subs|
    ensures i <= k <= |subs|
    ensures k < |subs| ==> subs[k].name == t
    ensures forall j :: i <= j < k ==> subs[j].name != t
    decreases |subs| - i
  {
    if i == |subs| || subs[i].name == t then i else FindSub(subs, t, i + 1)
  }

  function Follow(c: Context, t: string): Context {
    var k := FindSub(c.app.subcommands, t, 0);
    if k < |c.app.subcommands| then Context(c.app.subcommands[k], 0, false)
    else if "-" <= t then
      c.(skipNext := c.skipNext || exists i :: 0 <= i < |c.app.options| && TakesValue(c.app.options[i], t))
    else if c.skipNext then c.(skipNext := false)
    else c.(provided := c.provided + 1)
  }

  function Traverse(c: Context, tokens: seq<string>): Context
    decreases |tokens|
  {
    if tokens == [] then c else Traverse(Follow(c, tokens[0]), tokens[1..])
  }

  method TraverseTokens(app: App, tokens: seq<string>) returns (c: Context)
    ensures c == Traverse(Context(app, 0, false), tokens)
  {
    var currentContext := app;
    var positionalArgsProvided: nat := 0;
    var skipNextPositional := false;
    for i := 0 to |tokens|
      invariant Traverse(Context(currentContext, positionalArgsProvided, skipNextPositional), tokens[i..])
             == Traverse(Context(app, 0, false), tokens)
    {
      var t := tokens[i];
      assert tokens[i..][1..] == tokens[i + 1..];
      var k := FindSub(currentContext.subcommands, t, 0);
      if k < |currentContext.subcommands| {
        currentContext := currentContext.subcommands[k];
        positionalArgsProvided := 0;
        skipNextPositional := false;
      } else if "-" <= t {
        var was := skipNextPositional;
        for j := 0 to |currentContext.options|
          invariant skipNextPositional <==> was || exists m :: 0 <= m < j && TakesValue(currentContext.options[m], t)
        {
          if TakesValue(currentContext.options[j], t) {
            skipNextPositional := true;
          }
        }
      } else if skipNextPositional {
        skipNextPositional := false;
      } else {
        positionalArgsProvided := positionalArgsProvided + 1;
      }
    }
    c := Context(currentContext, positionalArgsProvided, skipNextPositional);
  }

  // ----- candidates -----

  /** The texts of the list that start with the typed word, each behind `lead`. */
  function Starting(lead: string, names: seq<string>, prefix: string): (r: seq<string>)
    ensures forall m :: m in r <==> prefix <= m && exists i :: 0 <= i < |names| && m == lead + names[i]
  {
    if names == [] then []
    else
      var rest := Starting(lead, names[1..], prefix);
      var m := lead + names[0];
      if prefix <= m then [m] + rest else rest
  }

  function Names(subs: seq<App>): (r: seq<string>)
    ensures |r| == |subs| && forall i :: 0 <= i < |r| ==> r[i] == subs[i].name
  {
    if subs == [] then [] else [subs[0].name] + Names(subs[1..])
  }

  function FlagMatches(options: seq<Opt>, prefix: string): seq<string> {
    if options == [] then []
    else
      (if options[0].positional then []
       else Starting("--", options[0].lnames, prefix) + Starting("-", options[0].snames, prefix))
      + FlagMatches(options[1..], prefix)
  }

  function Positionals(options: seq<Opt>): seq<Opt> {
    if options == [] then []
    else (if options[0].positional then [options[0]] else []) + Positionals(options[1..])
  }

  predicate TypingFlag(prefix: string) {
    "-" <= prefix
  }

  function DefaultMatches(c: Context, prefix: string): seq<string> {
    var positionals := Positionals(c.app.options);
    if !TypingFlag(prefix) && c.provided < |positionals| then
      var defVal := positionals[c.provided].defaultStr;
      if defVal != [] && prefix <= defVal then [defVal] else []
    else []
  }

  /** All candidates, in the order in which they are collected. */
  function Collect(c: Context, prefix: string): seq<string> {
    (if TypingFlag(prefix) then [] else Starting("", Names(c.app.subcommands), prefix))
    + (if TypingFlag(prefix) then FlagMatches(c.app.options, prefix) else [])
    + DefaultMatches(c, prefix)
  }

  /** What may be completed here: a flag of a non-positional option while a flag is typed, and otherwise a subcommand
      or the default value of the positional argument that is next. */
  ghost predicate Candidate(c: Context, prefix: string, m: string) {
    if TypingFlag(prefix) then
      exists i :: 0 <= i < |c.app.options| && !c.app.options[i].positional && FlagOf(c.app.options[i], m)
    else
      || (exists i :: 0 <= i < |c.app.subcommands| && c.app.subcommands[i].name == m)
      || (c.provided < |Positionals(c.app.options)| && m != []
          && Positionals(c.app.options)[c.provided].defaultStr == m)
  }

  ghost predicate FlagOf(opt: Opt, m: string) {
    || (exists i :: 0 <= i < |opt.lnames| && m == "--" + opt.lnames[i])
    || (exists i :: 0 <= i < |opt.snames| && m == "-" + opt.snames[i])
  }

  lemma {:induction false} FlagMatchesExactly(options: seq<Opt>, prefix: string, m: string)
    ensures m in FlagMatches(options, prefix) <==>
      prefix <= m && exists i :: 0 <= i < |options| && !options[i].positional && FlagOf(options[i], m)
  {
    if options != [] {
      FlagMatchesExactly(options[1..], prefix, m);
      if i :| 0 <= i < |options| && !options[i].positional && FlagOf(options[i], m) && i > 0 {
        assert options[1..][i - 1] == options[i];
      }
      if i :| 0 <= i < |options[1..]| && !options[1..][i].positional && FlagOf(options[1..][i], m) {
        assert options[i + 1] == options[1..][i];
      }
    }
  }

  /** The matches are exactly the candidates that start with the typed word. */
  lemma MatchesAreTheCandidates(c: Context, prefix: string, m: string)
    ensures m in Collect(c, prefix) <==> prefix <= m && Candidate(c, prefix, m)
  {
    if TypingFlag(prefix) {
      FlagMatchesExactly(c.app.options, prefix, m);
    } else {
      NameMatchesExactly(c.app.subcommands, prefix, m);
    }
  }

  lemma NameMatchesExactly(subs: seq<App>, prefix: string, m: string)
    ensures m in Starting("", Names(subs), prefix) <==>
      prefix <= m && exists i :: 0 <= i < |subs| && subs[i].name == m
  {
    var names := Names(subs);
    assert forall i :: 0 <= i < |names| ==> "" + names[i] == subs[i].name;
  }

  // ----- sorting and the common prefix -----

  /** `operator<` of `std::string`. */
  predicate Less(a: string, b: string) {
    b != [] && (a == [] || a[0] < b[0] || (a[0] == b[0] && Less(a[1..], b[1..])))
  }

  /** Inserts into a sorted list, unless it is there already. */
  function Insert(sorted: seq<string>, m: string): (r: seq<string>)
    ensures forall x :: x in r <==> x in sorted || x == m
  {
    if sorted == [] then [m]
    else if m == sorted[0] then sorted
    else if Less(m, sorted[0]) then [m] + sorted
    else [sorted[0]] + Insert(sorted[1..], m)
  }

  /** `std::sort`, then `std::unique` and `erase`. */
  function SortUnique(ms: seq<string>): (r: seq<string>)
    ensures forall x :: x in r <==> x in ms
    ensures ms != [] ==> r != []
  {
    if ms == [] then []
    else
      var r := Insert(SortUnique(ms[1..]), ms[0]);
      assert ms[0] in r;
      r
  }

  predicate StrictlySorted(r: seq<string>) {
    forall i, j :: 0 <= i < j < |r| ==> Less(r[i], r[j])
  }

  lemma {:induction false} LessIsTotal(a: string, b: string)
    requires a != b
    ensures Less(a, b) || Less(b, a)
  {
    if a != [] && b != [] && a[0] == b[0] {
      assert a == [a[0]] + a[1..] && b == [b[0]] + b[1..];
      LessIsTotal(a[1..], b[1..]);
    }
  }

  lemma {:induction false} LessIsTransitive(a: string, b: string, c: string)
    requires Less(a, b) && Less(b, c)
    ensures Less(a, c)
  {
    if a != [] && a[0] == b[0] && b[0] == c[0] {
      LessIsTransitive(a[1..], b[1..], c[1..]);
    }
  }

  lemma {:induction false} InsertSorts(sorted: seq<string>, m: string)
    requires StrictlySorted(sorted)
    ensures StrictlySorted(Insert(sorted, m))
  {
    if sorted != [] && m != sorted[0] {
      LessIsTotal(m, sorted[0]);
      if Less(m, sorted[0]) {
        forall j | 1 <= j < |sorted| ensures Less(m, sorted[j]) {
          LessIsTransitive(m, sorted[0], sorted[j]);
        }
      } else {
        var rest := Insert(sorted[1..], m);
        InsertSorts(sorted[1..], m);
        forall j | 0 <= j < |rest| ensures Less(sorted[0], rest[j]) {
          assert rest[j] in rest;
        }
      }
    }
  }

  /** The list is sorted and holds nothing twice. */
  lemma {:induction false} SortUniqueSorts(ms: seq<string>)
    ensures StrictlySorted(SortUnique(ms))
  {
    if ms != [] {
      SortUniqueSorts(ms[1..]);
      InsertSorts(SortUnique(ms[1..]), ms[0]);
    }
  }

  /** How many leading characters two texts share. */
  function Shared(a: string, b: string, j: nat): (n: nat)
    requires j <= |a| && j <= |b| && a[..j] == b[..j]
    ensures j <= n <= |a| && n <= |b| && a[..n] == b[..n]
    ensures n < |a| && n < |b| ==> a[n] != b[n]
    decreases |a| - j
  {
    if j < |a| && j < |b| && a[j] == b[j] then
      assert a[..j + 1] == a[..j] + [a[j]] && b[..j + 1] == b[..j] + [b[j]];
      Shared(a, b, j + 1)
    else j
  }

  function Fold(lcp: string, ms: seq<string>): (r: string)
    ensures r <= lcp
    decreases |ms|
  {
    if ms == [] then lcp else Fold(lcp[..Shared(lcp, ms[0], 0)], ms[1..])
  }

  function CommonPrefix(ms: seq<string>): string
    requires ms != []
  {
    Fold(ms[0], ms[1..])
  }

  method ComputeCommonPrefix(matches: seq<string>) returns (lcp: string)
    requires matches != []
    ensures lcp == CommonPrefix(matches)
  {
    lcp := matches[0];
    for i := 1 to |matches|
      invariant Fold(lcp, matches[i..]) == CommonPrefix(matches)
    {
      var j := 0;
      while j < |lcp| && j < |matches[i]| && lcp[j] == matches[i][j]
        invariant j <= |lcp| && j <= |matches[i]| && lcp[..j] == matches[i][..j]
        invariant Shared(lcp, matches[i], 0) == Shared(lcp, matches[i], j)
      {
        assert lcp[..j + 1] == lcp[..j] + [lcp[j]] && matches[i][..j + 1] == matches[i][..j] + [matches[i][j]];
        j := j + 1;
      }
      assert matches[i..][1..] == matches[i + 1..];
      lcp := lcp[..j];
    }
  }

  lemma {:induction false} FoldIsLongest(lcp: string, ms: seq<string>, p: string)
    ensures p <= Fold(lcp, ms) <==> p <= lcp && forall i :: 0 <= i < |ms| ==> p <= ms[i]
    decreases |ms|
  {
    if ms != [] {
      var n := Shared(lcp, ms[0], 0);
      FoldIsLongest(lcp[..n], ms[1..], p);
      SharedIsLongest(lcp, ms[0], p);
      assert forall i :: 0 <= i < |ms| - 1 ==> ms[1..][i] == ms[i + 1];
      if p <= lcp && forall i :: 0 <= i < |ms| ==> p <= ms[i] {
        assert p <= ms[0];
        assert forall i :: 0 <= i < |ms[1..]| ==> p <= ms[1..][i];
      }
      if p <= lcp[..n] && forall i :: 0 <= i < |ms[1..]| ==> p <= ms[1..][i] {
        forall i | 0 <= i < |ms| ensures p <= ms[i] {
          if i > 0 {
            assert p <= ms[1..][i - 1];
          }
        }
      }
    }
  }

  lemma SharedIsLongest(a: string, b: string, p: string)
    ensures p <= a[..Shared(a, b, 0)] <==> p <= a && p <= b
  {
    var n := Shared(a, b, 0);
    if p <= a && p <= b {
      assert forall j :: 0 <= j < |p| ==> p[j] == a[j] && p[j] == b[j];
    }
    if p <= a[..n] {
      assert a[..n] <= a && b[..n] <= b;
    }
  }

  /** The computed text is the longest common prefix: the texts that start all matches are exactly those that start
      it. */
  lemma CommonPrefixIsLongest(ms: seq<string>, p: string)
    requires ms != []
    ensures p <= CommonPrefix(ms) <==> forall m <- ms :: p <= m
  {
    FoldIsLongest(ms[0], ms[1..], p);
    assert forall i :: 0 <= i < |ms| - 1 ==> ms[1..][i] == ms[i + 1];
    if p <= CommonPrefix(ms) {
      forall m | m in ms ensures p <= m {
        var i :| 0 <= i < |ms| && ms[i] == m;
        if i > 0 {
          assert p <= ms[1..][i - 1];
        }
      }
    }
    if forall m <- ms :: p <= m {
      assert ms[0] in ms;
      forall i | 0 <= i < |ms[1..]| ensures p <= ms[1..][i] {
        assert ms[1..][i] in ms;
      }
    }
  }

  // ----- the whole -----

  predicate EndsWithSpace(input: string) {
    input == [] || input[|input| - 1] == ' '
  }

  lemma {:induction false} LastWordFits(s: string)
    ensures Words(s) != [] ==> |Words(s)[|Words(s)| - 1]| <= |s|
    decreases |s|
  {
    if s != [] {
      if IsSpace(s[0]) {
        LastWordFits(s[1..]);
      } else {
        LastWordFits(s[WordEnd(s, 0)..]);
      }
    }
  }

  /** The word that is being typed. */
  function Typed(input: string): (w: string)
    ensures |w| <= |input|
  {
    LastWordFits(input);
    var tokens := Words(input);
    if EndsWithSpace(input) || tokens == [] then [] else tokens[|tokens| - 1]
  }

  /** The words before it. */
  function Settled(input: string): seq<string> {
    var tokens := Words(input);
    if EndsWithSpace(input) || tokens == [] then tokens else tokens[..|tokens| - 1]
  }

  function Matches(app: App, input: string): seq<string> {
    SortUnique(Collect(Traverse(Context(app, 0, false), Settled(input)), Typed(input)))
  }

  /** The input without the typed word. */
  function Stem(input: string): string {
    input[..|input| - |Typed(input)|]
  }

  function Tab(app: App, input: string): (bool, string) {
    var ms := Matches(app, input);
    var stem := Stem(input);
    if ms == [] then (false, input)
    else if |ms| == 1 then (true, stem + ms[0] + " ")
    else if |CommonPrefix(ms)| > |Typed(input)| then (true, stem + CommonPrefix(ms))
    else (false, input)
  }

  method OnTab(app: App, input: string) returns (done: bool, output: string)
    ensures (done, output) == Tab(app, input)
  {
    output := input;
    var tokens := Words(input);
    var endsWithSpace := input == [] || input[|input| - 1] == ' ';
    var prefix := if endsWithSpace || tokens == [] then [] else tokens[|tokens| - 1];
    if !endsWithSpace && tokens != [] {
      tokens := tokens[..|tokens| - 1];
    }
    var c := TraverseTokens(app, tokens);
    var matches := Collect(c, prefix);
    if matches == [] {
      return false, output;
    }
    matches := SortUnique(matches);
    assert prefix == Typed(input);
    if |matches| == 1 {
      return true, input[..|input| - |prefix|] + matches[0] + " ";
    }
    var lcp := ComputeCommonPrefix(matches);
    if |lcp| > |prefix| {
      return true, input[..|input| - |prefix|] + lcp;
    }
    return false, output;
  }

  /** The last character is white space other than a blank, behind some word. */
  predicate EndsInOtherSpace(input: string) {
    input != [] && IsSpace(input[|input| - 1]) && input[|input| - 1] != ' ' && Words(input) != []
  }

  lemma {:induction false} LastWordIsSuffix(s: string)
    requires s != [] && !IsSpace(s[|s| - 1])
    ensures Words(s) != []
    ensures var w := Words(s)[|Words(s)| - 1]; |w| <= |s| && s[|s| - |w|..] == w
    decreases |s|
  {
    if IsSpace(s[0]) {
      LastWordIsSuffix(s[1..]);
      var w := Words(s)[|Words(s)| - 1];
      assert s[1..][|s| - 1 - |w|..] == s[|s| - |w|..];
    } else {
      var k := WordEnd(s, 0);
      if k < |s| {
        var t := s[k..];
        LastWordIsSuffix(t);
        var w := Words(s)[|Words(s)| - 1];
        assert w == Words(t)[|Words(t)| - 1];
        assert t[|t| - |w|..] == s[|s| - |w|..];
      } else {
        assert s[k..] == [] && s[..k] == s;
        assert Words(s) == [s];
      }
    }
  }

  /** Every match starts with the typed word. */
  lemma MatchesStart(app: App, input: string)
    ensures forall m <- Matches(app, input) :: Typed(input) <= m
  {
    forall m | m in Matches(app, input) ensures Typed(input) <= m {
      MatchesAreTheCandidates(Traverse(Context(app, 0, false), Settled(input)), Typed(input), m);
    }
  }

  lemma TypedIsSuffix(input: string)
    requires !EndsInOtherSpace(input)
    ensures input[|input| - |Typed(input)|..] == Typed(input)
  {
    if !EndsWithSpace(input) && Words(input) != [] {
      LastWordIsSuffix(input);
    }
  }

  /** What a completion replaces the typed word by. */
  function Completion(app: App, input: string): string
    requires Tab(app, input).0
  {
    var ms := Matches(app, input);
    if |ms| == 1 then ms[0] + " " else CommonPrefix(ms)
  }

  lemma CompletionStarts(app: App, input: string)
    requires Tab(app, input).0
    ensures Typed(input) <= Completion(app, input) && |Typed(input)| < |Completion(app, input)|
    ensures Tab(app, input).1 == Stem(input) + Completion(app, input)
  {
    MatchesStart(app, input);
    var ms := Matches(app, input);
    if |ms| == 1 {
      assert ms[0] in ms;
      assert Stem(input) + ms[0] + " " == Stem(input) + (ms[0] + " ");
    } else {
      CommonPrefixIsLongest(ms, Typed(input));
    }
  }

  lemma StemKept(input: string, completion: string)
    requires Typed(input) <= completion && |Typed(input)| < |completion|
    ensures input < Stem(input) + completion <==> !EndsInOtherSpace(input)
  {
    var typed, stem := Typed(input), Stem(input);
    if !EndsInOtherSpace(input) {
      TypedIsSuffix(input);
      assert input == stem + typed;
    } else {
      var last := |input| - 1;
      var words := Words(input);
      assert typed == words[|words| - 1] && IsWord(typed);
      var output := stem + completion;
      assert output[last] == completion[|typed| - 1] == typed[|typed| - 1];
      assert input[last] != output[last];
    }
  }

  /** Completion only extends: it leaves the input alone when it returns false; when it returns true it keeps the input
      as a prefix if and only if the input does not end in a tab or other such white space behind a word. */
  lemma TabExtendsExactly(app: App, input: string)
    ensures var (done, output) := Tab(app, input);
      && (!done ==> output == input)
      && (done ==> (input < output <==> !EndsInOtherSpace(input)))
  {
    if Tab(app, input).0 {
      CompletionStarts(app, input);
      StemKept(input, Completion(app, input));
    }
  }

  /** The failing side is not empty: behind a tab the typed word itself is kept and the completion written after part
      of it. */
  lemma TabBehindTabBreaks()
    ensures var app := App("", [App("ab", [], [])], []);
      Tab(app, "a\t") == (true, "aab ") && !("a\t" <= "aab ")
  {
    var app, input := App("", [App("ab", [], [])], []), "a\t";
    OneWordThenTab();
    assert Settled(input) == [] && Traverse(Context(app, 0, false), []) == Context(app, 0, false);
    assert Names(app.subcommands) == ["ab"];
    assert "a" <= "ab" == "" + "ab" && Starting("", [], "a") == [];
    assert Starting("", ["ab"], "a") == ["ab"] by {
      assert Starting("", ["ab"][1..], "a") == [];
    }
    assert Collect(Context(app, 0, false), "a") == ["ab"];
    assert SortUnique(["ab"]) == ["ab"];
    assert Matches(app, input) == ["ab"] && Stem(input) == "a";
    assert "a" + "ab" + " " == "aab ";
    assert input[1] != "aab "[1];
  }

  lemma OneWordThenTab()
    ensures Words("a\t") == ["a"] && Typed("a\t") == "a" && EndsInOtherSpace("a\t")
  {
    var input := "a\t";
    assert WordEnd(input, 0) == 1 && input[..1] == "a" && input[1..] == "\t";
    assert "\t"[1..] == "" && Words("\t") == [];
    assert Words(input) == [input[..1]] + Words(input[1..]);
  }

  /** With several matches the typed word becomes the longest common prefix of all candidates that start with it. */
  lemma TypedWordBecomesCommonPrefix(app: App, input: string, p: string)
    requires |Matches(app, input)| > 1 && !EndsInOtherSpace(input)
    ensures Tab(app, input).1 == Stem(input) + CommonPrefix(Matches(app, input))
    ensures p <= CommonPrefix(Matches(app, input)) <==>
      forall m <- Collect(Traverse(Context(app, 0, false), Settled(input)), Typed(input)) :: p <= m
  {
    CommonPrefixIsLongest(Matches(app, input), p);
    SeveralMatches(app, input);
  }

  lemma SeveralMatches(app: App, input: string)
    requires |Matches(app, input)| > 1 && !EndsInOtherSpace(input)
    ensures Tab(app, input).1 == Stem(input) + CommonPrefix(Matches(app, input))
  {
    var lcp, typed := CommonPrefix(Matches(app, input)), Typed(input);
    assert typed <= lcp by {
      MatchesStart(app, input);
      CommonPrefixIsLongest(Matches(app, input), typed);
    }
    if |lcp| <= |typed| {
      assert lcp == typed;
      TypedIsSuffix(input);
      assert input == Stem(input) + typed;
    }
  }
}
