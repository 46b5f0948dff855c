/** The argument loop of an application without subcommands, as a function from parser state to parser state.
    Arguments are kept reversed, as in the source: the next one is the last of the list, and a bundle of short flags
    pushes its remainder back. Main results: `StepShrinks` and `BundleIsSeparateFlags`. */
module FlatParser {
  import opened Text
  import opened CheckedArithmetic
  import opened Options

  datatype Classifier = Plain | PositionalMark | Short | Long

  datatype ExtrasMode = Error | ErrorImmediately | Ignore | AssumeSingleArgument | AssumeMultipleArguments | Capture

  datatype PrefixMode = Off | SeparatorOnly | On | PositionalOnly

  /** The settings of the application. */
  datatype Mode = Mode(extras: ExtrasMode, prefix: PrefixMode, positionalsAtEnd: bool, validatePositionals: bool,
                       validateOptionalArguments: bool)

  datatype Parser = Parser(options: seq<Opt>, args: seq<string>, parseOrder: seq<nat>,
                           missing: seq<(Classifier, string)>, positionalOnly: bool)

  // ----- classifying an argument -----

  predicate ValidFirstChar(c: char) {
    c != '-' && c as int > 33
  }

  /** The name and what follows it. */
  function SplitShort(s: string): Option<(string, string)> {
    if |s| > 1 && s[0] == '-' && ValidFirstChar(s[1]) then Some((s[1..2], s[2..])) else None
  }

  /** The name and the value behind `=`. */
  function SplitLong(s: string): Option<(string, string)> {
    if |s| > 2 && s[0] == '-' && s[1] == '-' && ValidFirstChar(s[2]) then
      var loc := Find(s, '=', 2);
      if loc < |s| then Some((s[2..loc], s[loc + 1..])) else Some((s[2..], []))
    else None
  }

  predicate IsDigit(c: char) {
    '0' <= c <= '9'
  }

  /** The first option that has the short (or long) name. */
  function FindOption(options: seq<Opt>, name: string, isShort: bool, from: nat): (k: nat)
    requires from <= |options|
    ensures from <= k <= |options|
    ensures k < |options| ==> name in if isShort then options[k].cfg.snames else options[k].cfg.lnames
    decreases |options| - from
  {
    if from == |options| || name in (if isShort then options[from].cfg.snames else options[from].cfg.lnames) then from
    else FindOption(options, name, isShort, from + 1)
  }

  function Recognize(options: seq<Opt>, current: string): Classifier {
    if current == "--" then PositionalMark
    else if SplitLong(current).Some? then Long
    else
      match SplitShort(current)
      case None => Plain
      case Some((name, rest)) =>
        if (IsDigit(name[0]) || (name[0] == '.' && rest != [] && IsDigit(rest[0])))
          && FindOption(options, name, true, 0) == |options|
        then Plain else Short
  }

  // ----- small steps -----

  function Next(args: seq<string>): string
    requires args != []
  {
    args[|args| - 1]
  }

  function Pop(p: Parser): Parser
    requires p.args != []
  {
    p.(args := p.args[..|p.args| - 1])
  }

  function WithOption(p: Parser, k: nat, o: Opt): Parser
    requires k < |p.options|
  {
    p.(options := p.options[k := o])
  }

  /** Adds a result and notes the option in the parse order. */
  function AddTo(p: Parser, k: nat, s: string): Parser
    requires k < |p.options|
  {
    WithOption(p, k, Add(p.options[k], s)).(parseOrder := p.parseOrder + [k])
  }

  /** `_move_to_missing`, without subcommands. */
  function MoveToMissing(mode: Mode, p: Parser, c: Classifier, s: string): Result<Parser> {
    if mode.extras == ErrorImmediately then Err("extra argument")
    else if mode.extras == Ignore then Ok(p)
    else Ok(p.(missing := p.missing + [(c, s)]))
  }

  /** All remaining arguments, the next one first. */
  function AllMissing(args: seq<string>): seq<(Classifier, string)> {
    if args == [] then [] else [(Plain, Next(args))] + AllMissing(args[..|args| - 1])
  }

  function TakeAllMissing(p: Parser): Parser {
    p.(missing := p.missing + AllMissing(p.args), args := [])
  }

  // ----- positional arguments -----

  function RemainingOf(cfg: Config, count: nat): nat {
    if ItemsMin(cfg) > 0 && count < ItemsMin(cfg) then ItemsMin(cfg) - count else 0
  }

  /** `_count_remaining_positionals(true)`. */
  function CountRequired(options: seq<Opt>): nat {
    if options == [] then 0
    else
      var o := options[0];
      (if o.cfg.positional && o.cfg.required then RemainingOf(o.cfg, |o.results|) else 0) + CountRequired(options[1..])
  }

  /** `validate_positionals_` refuses the text for this option. */
  predicate Refuses(mode: Mode, o: Opt, s: string) {
    mode.validatePositionals && ValidateOne(o.cfg, s, 0).Err?
  }

  predicate StillRequired(mode: Mode, o: Opt, s: string) {
    o.cfg.positional && o.cfg.required && |o.results| < ItemsMin(o.cfg) && !Refuses(mode, o, s)
  }

  predicate StillOpen(mode: Mode, o: Opt, s: string) {
    o.cfg.positional && (|o.results| < ItemsMax(o.cfg) || o.cfg.allowExtraArgs) && !Refuses(mode, o, s)
  }

  predicate Takes(mode: Mode, o: Opt, s: string, onlyRequired: bool) {
    if onlyRequired then StillRequired(mode, o, s) else StillOpen(mode, o, s)
  }

  function FindPositional(mode: Mode, options: seq<Opt>, s: string, onlyRequired: bool, from: nat): (k: nat)
    requires from <= |options|
    ensures from <= k <= |options|
    decreases |options| - from
  {
    if from == |options| || Takes(mode, options[from], s, onlyRequired) then from
    else FindPositional(mode, options, s, onlyRequired, from + 1)
  }

  /** Positionals come last, and no more arguments are left than required positionals still need. */
  predicate Scarce(mode: Mode, p: Parser) {
    mode.positionalsAtEnd && |p.args| <= CountRequired(p.options)
  }

  function ChoosePositional(mode: Mode, p: Parser): (k: nat)
    requires p.args != []
    ensures k <= |p.options|
  {
    var atEnd := if Scarce(mode, p) then FindPositional(mode, p.options, Next(p.args), true, 0) else |p.options|;
    if atEnd < |p.options| then atEnd else FindPositional(mode, p.options, Next(p.args), false, 0)
  }

  function Separated(o: Opt): Opt {
    if o.cfg.injectSeparator && o.results != [] && o.results[|o.results| - 1] != [] then Add(o, []) else o
  }

  function Retriggered(o: Opt): Opt {
    if o.cfg.triggerOnParse && o.phase == CallbackRun then Clear(o) else o
  }

  /** What a positional option makes of a text. */
  function TakePositional(o0: Opt, s: string): Result<Opt> {
    var o := Separated(o0);
    var prev := if o.cfg.triggerOnParse && o.phase == CallbackRun then o.results else [];
    match if o.cfg.expectedMin == 0 then o.cfg.positionalFlag(s) else Ok(s)
    case Err(m) => Err(m)
    case Ok(text) =>
      var added := Add(Retriggered(o), text);
      if !o.cfg.triggerOnParse then Ok(added)
      else if added.results != [] then RunCallback(added)
      else if prev != [] then Ok(AddAll(added, prev))
      else Ok(added)
  }

  function ParsePositional(mode: Mode, p: Parser): Result<Parser>
    requires p.args != []
  {
    var k := ChoosePositional(mode, p);
    if k < |p.options| then
      match TakePositional(p.options[k], Next(p.args))
      case Err(m) => Err(m)
      case Ok(o) => Ok(Pop(WithOption(p, k, o).(parseOrder := p.parseOrder + [k])))
    else if mode.positionalsAtEnd then Err("extra argument")
    else
      match MoveToMissing(mode, p, Plain, Next(p.args))
      case Err(m) => Err(m)
      case Ok(q) => if mode.prefix != Off then Ok(TakeAllMissing(Pop(q))) else Ok(Pop(q))
  }

  // ----- options -----

  function MinNum(cfg: Config): int {
    Min(cfg.typeSizeMin, ItemsMin(cfg))
  }

  function MaxNum(cfg: Config): int {
    if ItemsMax(cfg) >= VECTOR_SIZE / 16 && !cfg.allowExtraArgs then
      var (fits, t) := CheckedMultiply(INT, cfg.typeSizeMax, cfg.expectedMin);
      if fits then t else VECTOR_SIZE
    else ItemsMax(cfg)
  }

  /** A parser in the middle of one option: how many results were collected, and what is left of a bundle. */
  datatype Progress = Progress(p: Parser, collected: nat, rest: string)

  /** The value that comes with the name: a flag's own value, `--name=value`, or `-nvalue`. */
  function FirstValue(p: Parser, k: nat, name: string, value: string, rest: string): Result<Progress>
    requires k < |p.options|
  {
    var cfg := p.options[k].cfg;
    if MaxNum(cfg) == 0 then
      match cfg.flagValue(name, value)
      case Err(m) => Err(m)
      case Ok(text) => Ok(Progress(AddTo(p, k, text), 0, rest))
    else if value != [] then Ok(Progress(AddTo(p, k, value), |Added(cfg, value)|, rest))
    else if rest != [] then Ok(Progress(AddTo(p, k, rest), |Added(cfg, rest)|, []))
    else Ok(Progress(p, 0, rest))
  }

  /** Takes arguments until the minimum is reached. */
  function GatherMinimum(g: Progress, k: nat): (r: Progress)
    requires k < |g.p.options|
    ensures |r.p.options| == |g.p.options| && r.p.args <= g.p.args && r.rest == g.rest
    ensures r.p.positionalOnly == g.p.positionalOnly
    decreases |g.p.args|
  {
    var cfg := g.p.options[k].cfg;
    if MinNum(cfg) > g.collected && g.p.args != [] then
      var s := Next(g.p.args);
      GatherMinimum(Progress(AddTo(Pop(g.p), k, s), g.collected + |Added(cfg, s)|, g.rest), k)
    else g
  }

  /** The next argument looks like a value for this option and is not needed by required positionals. */
  predicate WantsNext(mode: Mode, g: Progress, k: nat, required: nat)
    requires k < |g.p.options|
  {
    var cfg := g.p.options[k].cfg;
    && (g.collected < MaxNum(cfg) || cfg.allowExtraArgs) && g.p.args != []
    && Recognize(g.p.options, Next(g.p.args)) == Plain && required < |g.p.args|
    && !(mode.validateOptionalArguments && ValidateOne(cfg, Next(g.p.args), 0).Err?)
  }

  function TakeNext(g: Progress, k: nat): Progress
    requires k < |g.p.options| && g.p.args != []
  {
    var s := Next(g.p.args);
    Progress(Pop(AddTo(g.p, k, s)), g.collected + |Added(g.p.options[k].cfg, s)|, g.rest)
  }

  /** Takes optional arguments while they are wanted. */
  function GatherOptional(mode: Mode, g: Progress, k: nat, required: nat): (r: Progress)
    requires k < |g.p.options|
    ensures |r.p.options| == |g.p.options| && r.p.args <= g.p.args && r.rest == g.rest
    decreases |g.p.args|
  {
    if WantsNext(mode, g, k, required) then GatherOptional(mode, TakeNext(g, k), k, required) else g
  }

  function TakeOptional(mode: Mode, g0: Progress, k: nat, name: string): (r: Result<Progress>)
    requires k < |g0.p.options|
    ensures r.Ok? ==> |r.value.p.options| == |g0.p.options| && r.value.p.args <= g0.p.args && r.value.rest == g0.rest
  {
    var cfg := g0.p.options[k].cfg;
    if !(MaxNum(cfg) > g0.collected || cfg.allowExtraArgs) then Ok(g0)
    else
      var g := GatherOptional(mode, g0, k, CountRequired(g0.p.options));
      var marked := g.p.args != [] && Recognize(g.p.options, Next(g.p.args)) == PositionalMark;
      var q := if marked then Pop(g.p) else g.p;
      if MinNum(cfg) == 0 && MaxNum(cfg) > 0 && g.collected == 0 then
        match cfg.flagValue(name, [])
        case Err(m) => Err(m)
        case Ok(text) => Ok(g.(p := AddTo(q, k, text)))
      else Ok(g.(p := q))
  }

  /** Completes a partial type, and runs a triggered callback. */
  function FinishOpt(o: Opt, collected: nat): Result<Opt> {
    var cfg := o.cfg;
    var partialType := MinNum(cfg) > 0 && cfg.typeSizeMax > 0 && collected % cfg.typeSizeMax != 0;
    if partialType && cfg.typeSizeMax == cfg.typeSizeMin then Err("partial type")
    else
      var completed := if partialType then Add(o, []) else o;
      if cfg.triggerOnParse then RunCallback(completed) else Ok(completed)
  }

  /** Finishes the option, and pushes the remainder of a bundle back. */
  function FinishOption(g: Progress, k: nat): Result<Parser>
    requires k < |g.p.options|
  {
    match FinishOpt(g.p.options[k], g.collected)
    case Err(m) => Err(m)
    case Ok(done) =>
      var q := WithOption(g.p, k, done);
      Ok(if g.rest != [] then q.(args := q.args + ["-" + g.rest]) else q)
  }

  /** An option that was found, with its argument popped already. */
  function ParseKnown(mode: Mode, p: Parser, k: nat, name: string, value: string, rest: string): Result<Parser>
    requires k < |p.options|
  {
    var ready := WithOption(p, k, Retriggered(Separated(p.options[k])));
    match FirstValue(ready, k, name, value, rest)
    case Err(m) => Err(m)
    case Ok(first) =>
      var g := GatherMinimum(first, k);
      if MinNum(g.p.options[k].cfg) > g.collected then Err("too few")
      else
        match TakeOptional(mode, g, k, name)
        case Err(m) => Err(m)
        case Ok(all) => FinishOption(all, k)
  }

  /** The arguments that an unknown option is assumed to have. */
  function AssumeArguments(mode: Mode, p: Parser, single: bool): (r: Result<Parser>)
    ensures r.Ok? ==> r.value.args <= p.args
    decreases |p.args|
  {
    if p.args == [] || Recognize(p.options, Next(p.args)) != Plain then Ok(p)
    else
      match MoveToMissing(mode, p, Plain, Next(p.args))
      case Err(m) => Err(m)
      case Ok(q) => if single then Ok(Pop(q)) else AssumeArguments(mode, Pop(q), single)
  }

  function ParseUnknown(mode: Mode, p: Parser, c: Classifier, current: string): (r: Result<Parser>)
    ensures r.Ok? ==> r.value.args <= p.args
  {
    match MoveToMissing(mode, p, c, current)
    case Err(m) => Err(m)
    case Ok(q) =>
      if mode.prefix == On then Ok(TakeAllMissing(q))
      else if mode.extras == AssumeSingleArgument then AssumeArguments(mode, q, true)
      else if mode.extras == AssumeMultipleArguments then AssumeArguments(mode, q, false)
      else Ok(q)
  }

  /** `_parse_arg`. */
  function ParseArg(mode: Mode, p: Parser, c: Classifier): Result<Parser>
    requires p.args != []
    requires c == Long ==> SplitLong(Next(p.args)).Some?
    requires c == Short ==> SplitShort(Next(p.args)).Some?
    requires c == Long || c == Short
  {
    var current := Next(p.args);
    var (name, tail) := if c == Long then SplitLong(current).value else SplitShort(current).value;
    var k := FindOption(p.options, name, c == Short, 0);
    if k == |p.options| then ParseUnknown(mode, Pop(p), c, current)
    else ParseKnown(mode, Pop(p), k, name, if c == Long then tail else [], if c == Short then tail else [])
  }

  /** `_parse_single`, which never returns false at the top level. */
  function ParseSingle(mode: Mode, p: Parser): Result<Parser>
    requires p.args != []
  {
    match if p.positionalOnly then Plain else Recognize(p.options, Next(p.args))
    case PositionalMark =>
      var q := Pop(p).(positionalOnly := true);
      if mode.prefix != Off then Ok(TakeAllMissing(q.(missing := q.missing + [(PositionalMark, "--")])))
      else MoveToMissing(mode, q, PositionalMark, "--")
    case Short => ParseArg(mode, p, Short)
    case Long => ParseArg(mode, p, Long)
    case Plain =>
      match ParsePositional(mode, p)
      case Err(m) => Err(m)
      case Ok(q) => Ok(if mode.positionalsAtEnd then q.(positionalOnly := true) else q)
  }

  // ----- the loop ends -----

  /** The sum over the remaining arguments of their length plus one. */
  function Weight(args: seq<string>): nat {
    if args == [] then 0 else Weight(args[..|args| - 1]) + |Next(args)| + 1
  }

  lemma {:induction false} PrefixWeighsLess(a: seq<string>, b: seq<string>)
    requires a <= b
    ensures Weight(a) <= Weight(b)
    decreases |b|
  {
    if |a| < |b| {
      PrefixWeighsLess(a, b[..|b| - 1]);
    } else {
      assert a == b;
    }
  }

  lemma FirstValueArgs(p: Parser, k: nat, name: string, value: string, rest: string)
    requires k < |p.options| && FirstValue(p, k, name, value, rest).Ok?
    ensures var g := FirstValue(p, k, name, value, rest).value;
      g.p.args == p.args && |g.p.options| == |p.options| && |g.rest| <= |rest|
  {
  }

  lemma KnownShrinks(mode: Mode, p: Parser, k: nat, name: string, value: string, rest: string)
    requires k < |p.options| && ParseKnown(mode, p, k, name, value, rest).Ok?
    ensures Weight(ParseKnown(mode, p, k, name, value, rest).value.args)
         <= Weight(p.args) + (if rest == [] then 0 else |rest| + 2)
  {
    var ready := WithOption(p, k, Retriggered(Separated(p.options[k])));
    FirstValueArgs(ready, k, name, value, rest);
    var first := FirstValue(ready, k, name, value, rest).value;
    var all := TakeOptional(mode, GatherMinimum(first, k), k, name).value;
    var r := FinishOption(all, k).value;
    PrefixWeighsLess(all.p.args, p.args);
    if all.rest != [] {
      assert r.args == all.p.args + ["-" + all.rest];
      assert r.args[..|r.args| - 1] == all.p.args;
    }
  }

  lemma UnknownShrinks(mode: Mode, p: Parser, c: Classifier, current: string)
    requires ParseUnknown(mode, p, c, current).Ok?
    ensures Weight(ParseUnknown(mode, p, c, current).value.args) <= Weight(p.args)
  {
    PrefixWeighsLess(ParseUnknown(mode, p, c, current).value.args, p.args);
  }

  lemma ArgShrinks(mode: Mode, p: Parser, c: Classifier)
    requires p.args != [] && (c == Long || c == Short)
    requires c == Long ==> SplitLong(Next(p.args)).Some?
    requires c == Short ==> SplitShort(Next(p.args)).Some?
    requires ParseArg(mode, p, c).Ok?
    ensures Weight(ParseArg(mode, p, c).value.args) < Weight(p.args)
  {
    var current := Next(p.args);
    assert Weight(p.args) == Weight(Pop(p).args) + |current| + 1;
    var (name, tail) := if c == Long then SplitLong(current).value else SplitShort(current).value;
    var k := FindOption(p.options, name, c == Short, 0);
    if k == |p.options| {
      UnknownShrinks(mode, Pop(p), c, current);
    } else if c == Long {
      KnownShrinks(mode, Pop(p), k, name, tail, []);
    } else {
      assert |tail| == |current| - 2;
      KnownShrinks(mode, Pop(p), k, name, [], tail);
    }
  }

  lemma PositionalShrinks(mode: Mode, p: Parser)
    requires p.args != [] && ParsePositional(mode, p).Ok?
    ensures Weight(ParsePositional(mode, p).value.args) < Weight(p.args)
  {
    assert Weight(p.args) == Weight(Pop(p).args) + |Next(p.args)| + 1;
    var left := ParsePositional(mode, p).value.args;
    assert left == Pop(p).args || left == [];
  }

  /** Every round of the loop makes the remaining arguments lighter, so it ends. */
  lemma StepShrinks(mode: Mode, p: Parser)
    requires p.args != [] && ParseSingle(mode, p).Ok?
    ensures Weight(ParseSingle(mode, p).value.args) < Weight(p.args)
  {
    var c := if p.positionalOnly then Plain else Recognize(p.options, Next(p.args));
    if c == Long || c == Short {
      ArgShrinks(mode, p, c);
    } else if c == Plain {
      PositionalShrinks(mode, p);
    }
  }

  /** The loop of `_parse`. */
  function ParseAll(mode: Mode, p: Parser): Result<Parser>
    decreases Weight(p.args)
  {
    if p.args == [] then Ok(p)
    else
      match ParseSingle(mode, p)
      case Err(m) => Err(m)
      case Ok(q) =>
        StepShrinks(mode, p);
        ParseAll(mode, q)
  }

  // ----- bundles -----

  /** An option without values: `-a` adds one result and takes no argument. */
  predicate PlainFlag(cfg: Config) {
    MaxNum(cfg) == 0 && MinNum(cfg) == 0 && !cfg.allowExtraArgs
  }

  /** `c` names a plain flag. */
  predicate KnownFlag(options: seq<Opt>, c: char) {
    ValidFirstChar(c) && FindOption(options, [c], true, 0) < |options|
    && PlainFlag(options[FindOption(options, [c], true, 0)].cfg)
  }

  /** What one plain flag does, whatever arguments follow. */
  function FlagEffect(p: Parser, c: char): Result<Parser>
    requires KnownFlag(p.options, c)
  {
    var k := FindOption(p.options, [c], true, 0);
    var o := Retriggered(Separated(p.options[k]));
    match o.cfg.flagValue([c], [])
    case Err(m) => Err(m)
    case Ok(text) =>
      match if o.cfg.triggerOnParse then RunCallback(Add(o, text)) else Ok(Add(o, text))
      case Err(m) => Err(m)
      case Ok(done) => Ok(WithOption(p, k, done).(parseOrder := p.parseOrder + [k]))
  }

  function Behind(tail: string): seq<string> {
    if tail == [] then [] else ["-" + tail]
  }

  /** A plain flag takes its value, no arguments, and leaves the rest of its bundle. */
  lemma PlainFlagParse(mode: Mode, p: Parser, k: nat, name: string, rest: string)
    requires k < |p.options| && PlainFlag(p.options[k].cfg)
    ensures var o := Retriggered(Separated(p.options[k]));
      ParseKnown(mode, p, k, name, [], rest) ==
        match o.cfg.flagValue(name, [])
        case Err(m) => Err(m)
        case Ok(text) => FinishOption(Progress(AddTo(WithOption(p, k, o), k, text), 0, rest), k)
  {
  }

  lemma PlainFlagFinish(p: Parser, k: nat, rest: string)
    requires k < |p.options| && PlainFlag(p.options[k].cfg)
    ensures FinishOption(Progress(p, 0, rest), k) ==
      match if p.options[k].cfg.triggerOnParse then RunCallback(p.options[k]) else Ok(p.options[k])
      case Err(m) => Err(m)
      case Ok(done) => Ok(WithOption(p, k, done).(args := p.args + Behind(rest)))
  {
    assert p.args + [] == p.args;
  }

  lemma FlagParse(mode: Mode, p: Parser, c: char, tail: string)
    requires KnownFlag(p.options, c)
    ensures ParseKnown(mode, p, FindOption(p.options, [c], true, 0), [c], [], tail) ==
      match FlagEffect(p, c)
      case Err(m) => Err(m)
      case Ok(r) => Ok(r.(args := p.args + Behind(tail)))
  {
    var k := FindOption(p.options, [c], true, 0);
    PlainFlagParse(mode, p, k, [c], tail);
    var o := Retriggered(Separated(p.options[k]));
    if o.cfg.flagValue([c], []).Ok? {
      FlagFinish(p, k, o, o.cfg.flagValue([c], []).value, tail);
    }
  }

  lemma FlagFinish(p: Parser, k: nat, o: Opt, text: string, tail: string)
    requires k < |p.options| && PlainFlag(o.cfg)
    ensures FinishOption(Progress(AddTo(WithOption(p, k, o), k, text), 0, tail), k) ==
      match if o.cfg.triggerOnParse then RunCallback(Add(o, text)) else Ok(Add(o, text))
      case Err(m) => Err(m)
      case Ok(done) => Ok(WithOption(p, k, done).(parseOrder := p.parseOrder + [k], args := p.args + Behind(tail)))
  {
    var added := AddTo(WithOption(p, k, o), k, text);
    PlainFlagFinish(added, k, tail);
    assert added.options[k] == Add(o, text);
    var done := if o.cfg.triggerOnParse then RunCallback(Add(o, text)) else Ok(Add(o, text));
    if done.Ok? {
      assert added.options[k := done.value] == p.options[k := done.value];
    }
  }

  /** One round on `-ctail` does what `-c` does, and leaves `-tail` to be read next. */
  lemma FlagStep(mode: Mode, p: Parser, before: seq<string>, c: char, tail: string)
    requires !p.positionalOnly && KnownFlag(p.options, c)
    ensures var q := p.(args := before + ["-" + [c] + tail]);
      ParseSingle(mode, q) == match FlagEffect(p, c)
                              case Err(m) => Err(m)
                              case Ok(r) => Ok(r.(args := before + Behind(tail)))
  {
    var current := "-" + [c] + tail;
    var q := p.(args := before + [current]);
    var k := FindOption(p.options, [c], true, 0);
    assert ParseSingle(mode, q) == ParseKnown(mode, p.(args := before), k, [c], [], tail) by {
      ShortIsRecognized(p.options, c, tail);
      OneRound(mode, p, before, current, Short);
    }
    FlagParse(mode, p.(args := before), c, tail);
  }

  /** The separate arguments, the first one last. */
  function Separate(cs: string): seq<string> {
    if cs == [] then [] else Separate(cs[1..]) + ["-" + [cs[0]]]
  }

  predicate KnownFlags(options: seq<Opt>, cs: string) {
    forall i :: 0 <= i < |cs| ==> KnownFlag(options, cs[i])
  }

  /** The options are the same up to their results. */
  ghost predicate SameConfigs(a: seq<Opt>, b: seq<Opt>) {
    |a| == |b| && forall i :: 0 <= i < |a| ==> a[i].cfg == b[i].cfg
  }

  lemma {:induction false} SameConfigsFind(a: seq<Opt>, b: seq<Opt>, name: string, isShort: bool, from: nat)
    requires SameConfigs(a, b) && from <= |a|
    ensures FindOption(a, name, isShort, from) == FindOption(b, name, isShort, from)
    decreases |a| - from
  {
    if from < |a| {
      SameConfigsFind(a, b, name, isShort, from + 1);
    }
  }

  lemma FlagKeepsConfig(p: Parser, c: char)
    requires KnownFlag(p.options, c) && FlagEffect(p, c).Ok?
    ensures SameConfigs(p.options, FlagEffect(p, c).value.options)
  {
    var k := FindOption(p.options, [c], true, 0);
    var o := Retriggered(Separated(p.options[k]));
    var flagged := Add(o, o.cfg.flagValue([c], []).value);
    var done := if o.cfg.triggerOnParse then RunCallback(flagged) else Ok(flagged);
    assert done.value.cfg == p.options[k].cfg by {
      if o.cfg.triggerOnParse {
        RunEndsRun(flagged);
      }
    }
    assert FlagEffect(p, c).value.options == p.options[k := done.value];
  }

  lemma FlagKeepsConfigs(p: Parser, c: char, cs: string)
    requires KnownFlag(p.options, c) && FlagEffect(p, c).Ok? && KnownFlags(p.options, cs)
    ensures KnownFlags(FlagEffect(p, c).value.options, cs)
    ensures FlagEffect(p, c).value.positionalOnly == p.positionalOnly
  {
    var r := FlagEffect(p, c).value;
    FlagKeepsConfig(p, c);
    forall i | 0 <= i < |cs| ensures KnownFlag(r.options, cs[i]) {
      SameConfigsFind(p.options, r.options, [cs[i]], true, 0);
    }
  }

  /** A bundle `-abc...` of any number of known plain flags has the same effect as `-a -b -c ...`: on all options, on
      the parse order, on what is missing, on errors, and on everything that is parsed after it. */
  lemma {:induction false} BundleIsSeparateFlags(mode: Mode, p: Parser, before: seq<string>, cs: string)
    requires !p.positionalOnly && cs != [] && KnownFlags(p.options, cs)
    ensures ParseAll(mode, p.(args := before + ["-" + cs])) == ParseAll(mode, p.(args := before + Separate(cs)))
    decreases |cs|
  {
    var c, tail := cs[0], cs[1..];
    assert "-" + [c] + tail == "-" + cs;
    assert "-" + [c] + [] == "-" + [c];
    FlagStep(mode, p, before, c, tail);
    FlagStep(mode, p, before + Separate(tail), c, []);
    assert before + Separate(cs) == (before + Separate(tail)) + ["-" + [c]];
    assert (before + Separate(tail)) + [] == before + Separate(tail);
    if FlagEffect(p, c).Ok? && tail != [] {
      FlagKeepsConfigs(p, c, tail);
      BundleIsSeparateFlags(mode, FlagEffect(p, c).value, before, tail);
    }
  }

  // ----- spellings of one option -----

  /** An option that needs at least one value. */
  predicate NeedsValue(cfg: Config) {
    MinNum(cfg) >= 1 && MaxNum(cfg) != 0
  }

  lemma FinishGathered(mode: Mode, g: Progress, k: nat, name: string, other: string)
    requires k < |g.p.options| && NeedsValue(g.p.options[k].cfg)
    ensures TakeOptional(mode, g, k, name) == TakeOptional(mode, g, k, other)
  {
    GatherOptionalKeeps(mode, g, k, CountRequired(g.p.options));
  }

  lemma {:induction false} GatherOptionalKeeps(mode: Mode, g: Progress, k: nat, required: nat)
    requires k < |g.p.options|
    ensures GatherOptional(mode, g, k, required).p.options[k].cfg == g.p.options[k].cfg
    decreases |g.p.args|
  {
    if WantsNext(mode, g, k, required) {
      GatherOptionalKeeps(mode, TakeNext(g, k), k, required);
    }
  }

  /** A value that comes with the name is taken like one that follows it as an argument of its own. */
  lemma ValueInPlace(mode: Mode, p: Parser, k: nat, name: string, other: string, value: string)
    requires k < |p.options| && NeedsValue(p.options[k].cfg) && value != []
    ensures var separate := ParseKnown(mode, p.(args := p.args + [value]), k, name, [], []);
      && ParseKnown(mode, p, k, other, value, []) == separate
      && ParseKnown(mode, p, k, other, [], value) == separate
  {
    var follows := p.(args := p.args + [value]);
    var o := Retriggered(Separated(p.options[k]));
    var ready, waiting := WithOption(p, k, o), WithOption(follows, k, o);
    var taken := Progress(AddTo(ready, k, value), |Added(o.cfg, value)|, []);
    assert Pop(waiting) == ready && Next(waiting.args) == value;
    assert FirstValue(waiting, k, name, [], []) == Ok(Progress(waiting, 0, []));
    assert GatherMinimum(Progress(waiting, 0, []), k) == GatherMinimum(taken, k);
    assert FirstValue(ready, k, other, value, []) == Ok(taken) == FirstValue(ready, k, other, [], value);
    GatherMinimumKeeps(taken, k);
    FinishGathered(mode, GatherMinimum(taken, k), k, name, other);
  }

  lemma {:induction false} GatherMinimumKeeps(g: Progress, k: nat)
    requires k < |g.p.options|
    ensures GatherMinimum(g, k).p.options[k].cfg == g.p.options[k].cfg
    decreases |g.p.args|
  {
    var cfg := g.p.options[k].cfg;
    if MinNum(cfg) > g.collected && g.p.args != [] {
      var s := Next(g.p.args);
      GatherMinimumKeeps(Progress(AddTo(Pop(g.p), k, s), g.collected + |Added(cfg, s)|, g.rest), k);
    }
  }

  lemma LongIsRecognized(options: seq<Opt>, name: string, tail: string)
    requires name != [] && ValidFirstChar(name[0]) && '=' !in name && (tail == [] || tail[0] == '=')
    ensures var current := "--" + name + tail;
      && Recognize(options, current) == Long
      && SplitLong(current) == Some((name, if tail == [] then [] else tail[1..]))
  {
    var current := "--" + name + tail;
    assert current[0] == '-' && current[1] == '-' && current[2] == name[0];
    assert forall j :: 2 <= j < 2 + |name| ==> current[j] == name[j - 2] && name[j - 2] != '=';
    if tail != [] {
      assert current[2 + |name|] == '=';
      assert current[2..2 + |name|] == name && current[2 + |name| + 1..] == tail[1..];
    } else {
      assert current[2..] == name;
    }
  }

  /** One round of the loop has the same effect on either end of the arguments. */
  ghost predicate SameRound(mode: Mode, p: Parser, before: seq<string>, a: seq<string>, b: seq<string>)
    requires a != [] && b != []
  {
    ParseSingle(mode, p.(args := before + a)) == ParseSingle(mode, p.(args := before + b))
  }

  /** `--name` (or `-c`) names option `k`, which needs a value. */
  predicate Names(options: seq<Opt>, name: string, c: char, k: nat) {
    && name != [] && ValidFirstChar(name[0]) && '=' !in name && ValidFirstChar(c)
    && k < |options| && FindOption(options, name, false, 0) == k && FindOption(options, [c], true, 0) == k
    && NeedsValue(options[k].cfg)
  }

  lemma LongRound(mode: Mode, p: Parser, before: seq<string>, name: string, c: char, k: nat, tail: string)
    requires !p.positionalOnly && Names(p.options, name, c, k) && (tail == [] || tail[0] == '=')
    ensures ParseSingle(mode, p.(args := before + ["--" + name + tail])) ==
      ParseKnown(mode, p.(args := before), k, name, if tail == [] then [] else tail[1..], [])
  {
    LongIsRecognized(p.options, name, tail);
    OneRound(mode, p, before, "--" + name + tail, Long);
  }

  lemma ShortRound(mode: Mode, p: Parser, before: seq<string>, name: string, c: char, k: nat, tail: string)
    requires !p.positionalOnly && Names(p.options, name, c, k)
    ensures ParseSingle(mode, p.(args := before + ["-" + [c] + tail]))
         == ParseKnown(mode, p.(args := before), k, [c], [], tail)
  {
    ShortIsRecognized(p.options, c, tail);
    OneRound(mode, p, before, "-" + [c] + tail, Short);
  }

  /** The four spellings of an option with a value, `--name=value`, `--name value`, `-cvalue` and `-c value`, have the
      same effect, even when the value looks like an option itself. */
  lemma SpellingsAgree(mode: Mode, p: Parser, before: seq<string>, name: string, c: char, k: nat, value: string)
    requires !p.positionalOnly && value != [] && Names(p.options, name, c, k)
    ensures SameRound(mode, p, before, ["--" + name + ("=" + value)], [value, "--" + name + []])
    ensures SameRound(mode, p, before, ["-" + [c] + value], [value, "--" + name + []])
    ensures SameRound(mode, p, before, [value, "-" + [c] + []], [value, "--" + name + []])
  {
    assert before + [value, "--" + name + []] == (before + [value]) + ["--" + name + []];
    assert before + [value, "-" + [c] + []] == (before + [value]) + ["-" + [c] + []];
    LongRound(mode, p, before, name, c, k, "=" + value);
    LongRound(mode, p, before + [value], name, c, k, []);
    ShortRound(mode, p, before, name, c, k, value);
    ShortRound(mode, p, before + [value], name, c, k, []);
    var start := p.(args := before);
    ValueInPlace(mode, start, k, name, name, value);
    ValueInPlace(mode, start, k, name, [c], value);
    ValueInPlace(mode, start, k, [c], name, value);
  }

  lemma ShortIsRecognized(options: seq<Opt>, c: char, tail: string)
    requires ValidFirstChar(c) && FindOption(options, [c], true, 0) < |options|
    ensures var current := "-" + [c] + tail;
      Recognize(options, current) == Short && SplitShort(current) == Some(([c], tail))
  {
    var current := "-" + [c] + tail;
    assert current[0] == '-' && current[1] == c;
    assert current[1..2] == [c] && current[2..] == tail;
    assert current != "--" && SplitLong(current).None?;
  }

  /** A round on a recognized option that is known. */
  lemma OneRound(mode: Mode, p: Parser, before: seq<string>, current: string, c: Classifier)
    requires !p.positionalOnly && (c == Long || c == Short) && Recognize(p.options, current) == c
    requires var (name, _) := if c == Long then SplitLong(current).value else SplitShort(current).value;
      FindOption(p.options, name, c == Short, 0) < |p.options|
    ensures var (name, tail) := if c == Long then SplitLong(current).value else SplitShort(current).value;
      ParseSingle(mode, p.(args := before + [current])) ==
        ParseKnown(mode, p.(args := before), FindOption(p.options, name, c == Short, 0), name,
                   if c == Long then tail else [], if c == Short then tail else [])
  {
    var q := p.(args := before + [current]);
    assert Pop(q) == p.(args := before) && Next(q.args) == current;
  }

  // ----- the mark `--` -----

  /** Options other than positional ones are as they were. */
  ghost predicate OptionsUntouched(a: seq<Opt>, b: seq<Opt>) {
    |a| == |b| && forall i :: 0 <= i < |a| ==> a[i].cfg == b[i].cfg && (!a[i].cfg.positional ==> a[i] == b[i])
  }

  /** Option `k` is the first that takes the text, or there is none. */
  ghost predicate FirstTaker(mode: Mode, options: seq<Opt>, s: string, onlyRequired: bool, from: nat, k: nat) {
    && from <= k <= |options| && (k < |options| ==> Takes(mode, options[k], s, onlyRequired))
    && forall j :: from <= j < k ==> !Takes(mode, options[j], s, onlyRequired)
  }

  lemma {:induction false} FindsFirstTaker(mode: Mode, options: seq<Opt>, s: string, onlyRequired: bool, from: nat)
    requires from <= |options|
    ensures FirstTaker(mode, options, s, onlyRequired, from, FindPositional(mode, options, s, onlyRequired, from))
    decreases |options| - from
  {
    if from < |options| {
      FindsFirstTaker(mode, options, s, onlyRequired, from + 1);
    }
  }

  /** What the choice achieves: while arguments are scarce, a required positional that is below its minimum and accepts
      the text comes before every other, whatever their order; otherwise the first open one takes it. Only when no
      positional takes the text is it left over. */
  lemma RequiredComeFirst(mode: Mode, p: Parser)
    requires p.args != []
    ensures var k, s := ChoosePositional(mode, p), Next(p.args);
      if Scarce(mode, p) && exists j :: 0 <= j < |p.options| && Takes(mode, p.options[j], s, true) then
        k < |p.options| && FirstTaker(mode, p.options, s, true, 0, k)
      else FirstTaker(mode, p.options, s, false, 0, k)
    ensures var k := ChoosePositional(mode, p);
      k < |p.options| ==> p.options[k].cfg.positional && !Refuses(mode, p.options[k], Next(p.args))
  {
    FindsFirstTaker(mode, p.options, Next(p.args), true, 0);
    FindsFirstTaker(mode, p.options, Next(p.args), false, 0);
  }

  lemma {:induction false} AddAllKeepsConfig(o: Opt, texts: seq<string>)
    ensures AddAll(o, texts).cfg == o.cfg
    decreases |texts|
  {
    if texts != [] {
      AddAllKeepsConfig(Add(o, texts[0]), texts[1..]);
    }
  }

  lemma TakePositionalKeepsConfig(o: Opt, s: string)
    requires TakePositional(o, s).Ok?
    ensures TakePositional(o, s).value.cfg == o.cfg
  {
    var text := if o.cfg.expectedMin == 0 then o.cfg.positionalFlag(s) else Ok(s);
    var added := Add(Retriggered(Separated(o)), text.value);
    assert added.cfg == o.cfg;
    if o.cfg.triggerOnParse {
      if added.results != [] {
        RunEndsRun(added);
      } else {
        AddAllKeepsConfig(added, Separated(o).results);
      }
    }
  }

  lemma PositionalLeavesOptions(mode: Mode, p: Parser)
    requires p.args != [] && ParsePositional(mode, p).Ok?
    ensures OptionsUntouched(p.options, ParsePositional(mode, p).value.options)
    ensures ParsePositional(mode, p).value.positionalOnly == p.positionalOnly
  {
    RequiredComeFirst(mode, p);
    var k := ChoosePositional(mode, p);
    if k < |p.options| {
      TakePositionalKeepsConfig(p.options[k], Next(p.args));
    }
  }

  lemma {:induction false} MarkEndsOptions(mode: Mode, p: Parser)
    requires p.positionalOnly && ParseAll(mode, p).Ok?
    ensures OptionsUntouched(p.options, ParseAll(mode, p).value.options)
    decreases Weight(p.args)
  {
    if p.args != [] {
      StepShrinks(mode, p);
      PositionalLeavesOptions(mode, p);
      MarkEndsOptions(mode, ParseSingle(mode, p).value);
    }
  }

  ghost predicate NoPositionals(options: seq<Opt>) {
    forall i :: 0 <= i < |options| ==> !options[i].cfg.positional
  }

  lemma {:induction false} MarkKeepsExtras(mode: Mode, p: Parser)
    requires p.positionalOnly && !mode.positionalsAtEnd && mode.extras != Ignore && mode.extras != ErrorImmediately
    requires NoPositionals(p.options)
    ensures ParseAll(mode, p) == Ok(p.(args := [], missing := p.missing + AllMissing(p.args)))
    decreases Weight(p.args)
  {
    if p.args != [] {
      RequiredComeFirst(mode, p);
      StepShrinks(mode, p);
      var q := ParseSingle(mode, p).value;
      var rest := AllMissing(p.args[..|p.args| - 1]);
      assert p.missing + ([(Plain, Next(p.args))] + rest) == (p.missing + [(Plain, Next(p.args))]) + rest;
      assert (p.missing + AllMissing(p.args)) + [] == p.missing + AllMissing(p.args);
      if mode.prefix == Off {
        MarkKeepsExtras(mode, q);
      }
    } else {
      assert p.missing + [] == p.missing;
    }
  }

  /** Behind `--` nothing is read as an option: whatever the arguments look like, no option other than a positional one
      changes. Without positional options everything behind it is left over, in order, unless extras are ignored or
      refused. */
  lemma DoubleDashEndsOptions(mode: Mode, p: Parser, before: seq<string>)
    requires ParseAll(mode, p.(args := before + ["--"])).Ok? && !p.positionalOnly
    ensures var q := ParseAll(mode, p.(args := before + ["--"])).value;
      && OptionsUntouched(p.options, q.options)
      && (!mode.positionalsAtEnd && mode.extras != Ignore && NoPositionals(p.options)
          ==> q.missing == p.missing + [(PositionalMark, "--")] + AllMissing(before))
  {
    var start := p.(args := before + ["--"]);
    assert Next(start.args) == "--" && Pop(start).args == before;
    var q := ParseSingle(mode, start).value;
    StepShrinks(mode, start);
    MarkEndsOptions(mode, q);
    if !mode.positionalsAtEnd && mode.extras != Ignore && NoPositionals(p.options) {
      if mode.prefix == Off {
        MarkKeepsExtras(mode, q);
      } else {
        assert ParseAll(mode, q) == Ok(q);
      }
    }
  }
}
