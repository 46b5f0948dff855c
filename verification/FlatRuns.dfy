/** A whole run of a flat application: the argument loop, then the callbacks. Main result: `CallbacksHandedOver`. */
module FlatRuns {
  import opened Text
  import opened Options
  import opened FlatParser
  import opened Callbacks

  /** What parsing may make of an option: its settings stay, what was handed to its callback stays, no unvalidated
      result is handed over, and a callback that is not triggered by parsing does not run at all. */
  ghost predicate Grown(a: Opt, b: Opt) {
    && b.cfg == a.cfg && a.sent <= b.sent && (Sound(a) ==> Sound(b))
    && (!a.cfg.triggerOnParse && a.phase == Parsing ==> b.phase == Parsing && b.sent == a.sent)
  }

  ghost predicate AllGrown(a: seq<Opt>, b: seq<Opt>) {
    |a| == |b| && forall i :: 0 <= i < |a| ==> Grown(a[i], b[i])
  }

  lemma GrownAgain(a: seq<Opt>, b: seq<Opt>, c: seq<Opt>)
    requires AllGrown(a, b) && AllGrown(b, c)
    ensures AllGrown(a, c)
  {
    forall i | 0 <= i < |a| ensures Grown(a[i], c[i]) {
      assert Grown(a[i], b[i]) && Grown(b[i], c[i]);
    }
  }

  lemma OneGrown(options: seq<Opt>, k: nat, o: Opt)
    requires k < |options| && Grown(options[k], o)
    ensures AllGrown(options, options[k := o])
  {
  }

  lemma {:induction false} AddAllGrows(o: Opt, texts: seq<string>)
    ensures Grown(o, AddAll(o, texts))
    decreases |texts|
  {
    if texts != [] {
      AddAllGrows(Add(o, texts[0]), texts[1..]);
    }
  }

  lemma RunGrows(o: Opt)
    requires o.cfg.triggerOnParse && RunCallback(o).Ok?
    ensures Grown(o, RunCallback(o).value)
  {
    RunEndsRun(o);
    if Sound(o) {
      RunCallbackIsSound(o);
    }
  }

  lemma PreparedGrows(o: Opt)
    ensures Grown(o, Separated(o)) && Grown(o, Retriggered(Separated(o)))
  {
  }

  lemma TakePositionalGrows(o: Opt, s: string)
    requires TakePositional(o, s).Ok?
    ensures Grown(o, TakePositional(o, s).value)
  {
    PreparedGrows(o);
    var text := if o.cfg.expectedMin == 0 then o.cfg.positionalFlag(s) else Ok(s);
    var added := Add(Retriggered(Separated(o)), text.value);
    if o.cfg.triggerOnParse {
      if added.results != [] {
        RunGrows(added);
      } else {
        AddAllGrows(added, Separated(o).results);
      }
    }
  }

  // ----- options that take values -----

  lemma AddToGrows(p: Parser, k: nat, s: string)
    requires k < |p.options|
    ensures AllGrown(p.options, AddTo(p, k, s).options)
  {
    OneGrown(p.options, k, Add(p.options[k], s));
  }

  lemma FirstValueGrows(p: Parser, k: nat, name: string, value: string, rest: string)
    requires k < |p.options| && FirstValue(p, k, name, value, rest).Ok?
    ensures AllGrown(p.options, FirstValue(p, k, name, value, rest).value.p.options)
  {
    var cfg := p.options[k].cfg;
    if MaxNum(cfg) == 0 {
      AddToGrows(p, k, cfg.flagValue(name, value).value);
    } else {
      AddToGrows(p, k, value);
      AddToGrows(p, k, rest);
    }
  }

  lemma {:induction false} GatherMinimumGrows(g: Progress, k: nat)
    requires k < |g.p.options|
    ensures AllGrown(g.p.options, GatherMinimum(g, k).p.options)
    decreases |g.p.args|
  {
    var cfg := g.p.options[k].cfg;
    if MinNum(cfg) > g.collected && g.p.args != [] {
      var s := Next(g.p.args);
      var next := Progress(AddTo(Pop(g.p), k, s), g.collected + |Added(cfg, s)|, g.rest);
      AddToGrows(Pop(g.p), k, s);
      GatherMinimumGrows(next, k);
      GrownAgain(g.p.options, next.p.options, GatherMinimum(g, k).p.options);
    }
  }

  lemma {:induction false} GatherOptionalGrows(mode: Mode, g: Progress, k: nat, required: nat)
    requires k < |g.p.options|
    ensures AllGrown(g.p.options, GatherOptional(mode, g, k, required).p.options)
    decreases |g.p.args|
  {
    if WantsNext(mode, g, k, required) {
      AddToGrows(g.p, k, Next(g.p.args));
      GatherOptionalGrows(mode, TakeNext(g, k), k, required);
      GrownAgain(g.p.options, TakeNext(g, k).p.options, GatherOptional(mode, g, k, required).p.options);
    }
  }

  lemma TakeOptionalGrows(mode: Mode, g: Progress, k: nat, name: string)
    requires k < |g.p.options| && TakeOptional(mode, g, k, name).Ok?
    ensures AllGrown(g.p.options, TakeOptional(mode, g, k, name).value.p.options)
  {
    var cfg := g.p.options[k].cfg;
    if MaxNum(cfg) > g.collected || cfg.allowExtraArgs {
      var after := GatherOptional(mode, g, k, CountRequired(g.p.options)).p;
      GatherOptionalGrows(mode, g, k, CountRequired(g.p.options));
      if cfg.flagValue(name, []).Ok? {
        AddToGrows(after, k, cfg.flagValue(name, []).value);
        GrownAgain(g.p.options, after.options, AddTo(after, k, cfg.flagValue(name, []).value).options);
      }
    }
  }

  lemma FinishGrows(g: Progress, k: nat)
    requires k < |g.p.options| && FinishOption(g, k).Ok?
    ensures AllGrown(g.p.options, FinishOption(g, k).value.options)
  {
    var o, cfg := g.p.options[k], g.p.options[k].cfg;
    var partialType := MinNum(cfg) > 0 && cfg.typeSizeMax > 0 && g.collected % cfg.typeSizeMax != 0;
    var completed := if partialType then Add(o, []) else o;
    if cfg.triggerOnParse {
      RunGrows(completed);
      OneGrown(g.p.options, k, RunCallback(completed).value);
    } else {
      OneGrown(g.p.options, k, completed);
    }
  }

  lemma KnownGrows(mode: Mode, p: Parser, k: nat, name: string, value: string, rest: string)
    requires k < |p.options| && ParseKnown(mode, p, k, name, value, rest).Ok?
    ensures AllGrown(p.options, ParseKnown(mode, p, k, name, value, rest).value.options)
  {
    var prepared := Retriggered(Separated(p.options[k]));
    var ready := WithOption(p, k, prepared);
    var first := FirstValue(ready, k, name, value, rest).value;
    var least := GatherMinimum(first, k);
    var all := TakeOptional(mode, least, k, name).value;
    PreparedGrows(p.options[k]);
    OneGrown(p.options, k, prepared);
    FirstValueGrows(ready, k, name, value, rest);
    GrownAgain(p.options, ready.options, first.p.options);
    GatherMinimumGrows(first, k);
    GrownAgain(p.options, first.p.options, least.p.options);
    TakeOptionalGrows(mode, least, k, name);
    GrownAgain(p.options, least.p.options, all.p.options);
    FinishGrows(all, k);
    GrownAgain(p.options, all.p.options, FinishOption(all, k).value.options);
  }

  // ----- the loop -----

  lemma {:induction false} AssumedLeavesOptions(mode: Mode, p: Parser, single: bool)
    requires AssumeArguments(mode, p, single).Ok?
    ensures AssumeArguments(mode, p, single).value.options == p.options
    decreases |p.args|
  {
    if p.args != [] && Recognize(p.options, Next(p.args)) == Plain && !single {
      AssumedLeavesOptions(mode, Pop(MoveToMissing(mode, p, Plain, Next(p.args)).value), single);
    }
  }

  lemma UnknownLeavesOptions(mode: Mode, p: Parser, c: Classifier, current: string)
    requires ParseUnknown(mode, p, c, current).Ok?
    ensures ParseUnknown(mode, p, c, current).value.options == p.options
  {
    var q := MoveToMissing(mode, p, c, current).value;
    if mode.prefix != On && (mode.extras == AssumeSingleArgument || mode.extras == AssumeMultipleArguments) {
      AssumedLeavesOptions(mode, q, mode.extras == AssumeSingleArgument);
    }
  }

  lemma ArgGrows(mode: Mode, p: Parser, c: Classifier)
    requires p.args != [] && (c == Long || c == Short)
    requires c == Long ==> SplitLong(Next(p.args)).Some?
    requires c == Short ==> SplitShort(Next(p.args)).Some?
    requires ParseArg(mode, p, c).Ok?
    ensures AllGrown(p.options, ParseArg(mode, p, c).value.options)
  {
    var current := Next(p.args);
    var (name, tail) := if c == Long then SplitLong(current).value else SplitShort(current).value;
    var k := FindOption(p.options, name, c == Short, 0);
    if k == |p.options| {
      UnknownLeavesOptions(mode, Pop(p), c, current);
    } else {
      KnownGrows(mode, Pop(p), k, name, if c == Long then tail else [], if c == Short then tail else []);
    }
  }

  lemma PositionalGrows(mode: Mode, p: Parser)
    requires p.args != [] && ParsePositional(mode, p).Ok?
    ensures AllGrown(p.options, ParsePositional(mode, p).value.options)
  {
    var k := ChoosePositional(mode, p);
    if k < |p.options| {
      TakePositionalGrows(p.options[k], Next(p.args));
      OneGrown(p.options, k, TakePositional(p.options[k], Next(p.args)).value);
    }
  }

  lemma RoundGrows(mode: Mode, p: Parser)
    requires p.args != [] && ParseSingle(mode, p).Ok?
    ensures AllGrown(p.options, ParseSingle(mode, p).value.options)
  {
    var c := if p.positionalOnly then Plain else Recognize(p.options, Next(p.args));
    if c == Long || c == Short {
      ArgGrows(mode, p, c);
    } else if c == Plain {
      PositionalGrows(mode, p);
    }
  }

  /** Whatever the arguments are, parsing only lets the options grow. */
  lemma {:induction false} ParsingGrows(mode: Mode, p: Parser)
    requires ParseAll(mode, p).Ok?
    ensures AllGrown(p.options, ParseAll(mode, p).value.options)
    decreases Weight(p.args)
  {
    if p.args != [] {
      var q := ParseSingle(mode, p).value;
      StepShrinks(mode, p);
      RoundGrows(mode, p);
      ParsingGrows(mode, q);
      GrownAgain(p.options, q.options, ParseAll(mode, p).value.options);
    }
  }

  // ----- the whole run -----

  /** The loop and then the callbacks. */
  function Run(mode: Mode, p: Parser): Result<Ran> {
    match ParseAll(mode, p)
    case Err(m) => Err(m)
    case Ok(q) => RunPasses(RunCallback, Ran(q.options, []), 0)
  }

  /** From `before` the run to `parsed` behind the loop to `after` the callbacks. */
  ghost predicate HandedOver(before: Opt, parsed: Opt, after: Opt) {
    && after.cfg == before.cfg && !ReadyToRun(after)
    // no callback ever saw a result that was not validated
    && (forall i :: 0 <= i < |after.sent| ==> after.sent[i].1 == 0)
    // nothing that was handed over before is forgotten
    && before.sent <= parsed.sent <= after.sent
    // a due callback is run exactly once behind the loop
    && (ReadyToRun(parsed) && parsed.results != [] && before.cfg.hasCallback ==> |after.sent| == |parsed.sent| + 1)
    && (!ReadyToRun(parsed) ==> after == parsed)
    // without triggers and default values: exactly once in the whole run if there are results, and otherwise never
    && (!before.cfg.triggerOnParse && !before.cfg.forceCallback && before.cfg.hasCallback
        ==> |after.sent| == if parsed.results == [] then 0 else 1)
  }

  /** A new option. */
  ghost predicate Untouched(o: Opt) {
    o == Opt(o.cfg, [], [], Parsing, 0, [])
  }

  lemma SettledHandsOver(before: Opt, parsed: Opt, after: Opt)
    requires Untouched(before) && Grown(before, parsed) && Settled(RunCallback, parsed, after)
    ensures HandedOver(before, parsed, after)
  {
    if ReadyToRun(parsed) {
      RunEndsRun(parsed);
      RunCallbackIsSound(parsed);
      if parsed.results != [] && before.cfg.hasCallback {
        RunHandsOver(parsed);
      }
    }
  }

  /** A whole run, over every list of arguments: when it ends without an exception, no callback has ever been handed a
      result that was not validated, every option that was due has had its callback run exactly once behind the loop and
      none is due any more; and a callback that is neither triggered by parsing nor forced has run exactly once in the
      whole run if its option has results, and not at all otherwise. */
  lemma CallbacksHandedOver(mode: Mode, p: Parser, i: nat)
    requires i < |p.options| && Run(mode, p).Ok?
    requires forall k :: 0 <= k < |p.options| ==> Untouched(p.options[k]) && p.options[k].cfg.priority < PRIORITIES
    ensures var parsed, after := ParseAll(mode, p).value.options, Run(mode, p).value.options;
      |parsed| == |after| == |p.options| && HandedOver(p.options[i], parsed[i], after[i])
  {
    var parsed := ParseAll(mode, p).value.options;
    ParsingGrows(mode, p);
    forall k | 0 <= k < |parsed| ensures parsed[k].cfg.priority < PRIORITIES {
      assert Grown(p.options[k], parsed[k]);
    }
    CallbacksRunOnceInOrder(parsed);
    SettledHandsOver(p.options[i], parsed[i], Run(mode, p).value.options[i]);
  }
}
