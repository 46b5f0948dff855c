/** The application object: options are objects that it updates in place, arguments a list that it pops from and pushes
    to. Its methods are proved to do what `FlatParser` and `Callbacks` say. */
module FlatApp {
  import opened Text
  import opened Options
  import opened FlatParser
  import opened Callbacks
  import FlatRuns

  class App {
    const mode: Mode
    const options: seq<OptionObject>
    var args: seq<string>
    var parseOrder: seq<nat>
    var missing: seq<(Classifier, string)>
    var positionalOnly: bool

    /** No option is registered twice. */
    ghost predicate Valid() {
      forall i, j :: 0 <= i < j < |options| ==> options[i] != options[j]
    }

    function OptValues(): (r: seq<Opt>)
      reads options
      ensures |r| == |options|
    {
      seq(|options|, i requires 0 <= i < |options| reads options => options[i].Value())
    }

    function Value(): Parser
      reads this, options
    {
      Parser(OptValues(), args, parseOrder, missing, positionalOnly)
    }

    constructor (mode: Mode, options: seq<OptionObject>, args: seq<string>)
      requires forall i, j :: 0 <= i < j < |options| ==> options[i] != options[j]
      ensures Valid() && this.mode == mode && this.options == options
      ensures Value() == Parser(OptValues(), args, [], [], false)
    {
      this.mode, this.options, this.args := mode, options, args;
      parseOrder, missing, positionalOnly := [], [], false;
    }

    method PopArg() returns (s: string)
      requires args != []
      modifies `args
      ensures s == Next(old(args)) && Value() == Pop(old(Value()))
    {
      s := args[|args| - 1];
      args := args[..|args| - 1];
    }

    /** `add_result`, noted in the parse order. */
    method AddResult(k: nat, s: string) returns (added: nat)
      requires Valid() && k < |options|
      modifies `parseOrder, options
      ensures Value() == AddTo(old(Value()), k, s) && added == |Added(options[k].cfg, s)|
    {
      added := options[k].AddResult(s);
      parseOrder := parseOrder + [k];
      assert OptValues() == old(OptValues())[k := Add(old(OptValues())[k], s)];
    }

    method Missing(c: Classifier, s: string) returns (r: Result<()>)
      modifies `missing
      ensures match MoveToMissing(mode, old(Value()), c, s)
        case Ok(after) => r.Ok? && Value() == after
        case Err(m) => r == Err(m)
    {
      if mode.extras == ErrorImmediately {
        return Err("extra argument");
      }
      if mode.extras != Ignore {
        missing := missing + [(c, s)];
      }
      return Ok(());
    }

    method AllRemainingMissing()
      modifies `missing, `args
      ensures Value() == TakeAllMissing(old(Value()))
    {
      ghost var all := missing + AllMissing(args);
      while args != []
        invariant missing + AllMissing(args) == all
        decreases |args|
      {
        missing := missing + [(Plain, Next(args))];
        var s := PopArg();
      }
      assert missing + [] == missing;
    }

    /** `inject_separator` and `trigger_on_parse`, before an option takes anything. */
    method PrepareOption(k: nat)
      requires Valid() && k < |options|
      modifies options
      ensures Value() == WithOption(old(Value()), k, Retriggered(Separated(old(Value()).options[k])))
    {
      var op := options[k];
      if op.cfg.injectSeparator {
        if op.results != [] && op.results[|op.results| - 1] != [] {
          var added := op.AddResult([]);
        }
      }
      if op.cfg.triggerOnParse && op.phase == CallbackRun {
        op.ClearResults();
      }
      assert OptValues() == old(OptValues())[k := Retriggered(Separated(old(OptValues())[k]))];
    }

    method TakeFirstValue(k: nat, name: string, value: string, rest: string) returns (r: Result<(nat, string)>)
      requires Valid() && k < |options|
      modifies `parseOrder, options
      ensures match FirstValue(old(Value()), k, name, value, rest)
        case Ok(g) => r == Ok((g.collected, g.rest)) && Value() == g.p
        case Err(m) => r == Err(m)
    {
      if MaxNum(options[k].cfg) == 0 {
        match options[k].cfg.flagValue(name, value) {
          case Err(m) => return Err(m);
          case Ok(text) =>
            var added := AddResult(k, text);
            return Ok((0, rest));
        }
      } else if value != [] {
        var added := AddResult(k, value);
        return Ok((added, rest));
      } else if rest != [] {
        var added := AddResult(k, rest);
        return Ok((added, []));
      }
      return Ok((0, rest));
    }

    method TakeMinimum(k: nat, start: nat, ghost rest: string) returns (collected: nat)
      requires Valid() && k < |options|
      modifies `args, `parseOrder, options
      ensures Progress(Value(), collected, rest) == GatherMinimum(Progress(old(Value()), start, rest), k)
    {
      collected := start;
      while MinNum(options[k].cfg) > collected && args != []
        invariant GatherMinimum(Progress(Value(), collected, rest), k)
               == GatherMinimum(Progress(old(Value()), start, rest), k)
        decreases |args|
      {
        collected := TakeOneMore(k, collected, rest);
      }
    }

    method TakeOneMore(k: nat, before: nat, ghost rest: string) returns (collected: nat)
      requires Valid() && k < |options| && args != [] && MinNum(options[k].cfg) > before
      modifies `args, `parseOrder, options
      ensures |args| < |old(args)|
      ensures GatherMinimum(Progress(Value(), collected, rest), k)
           == GatherMinimum(Progress(old(Value()), before, rest), k)
    {
      var current := PopArg();
      var added := AddResult(k, current);
      collected := before + added;
    }

    method TakeOptionalLoop(k: nat, start: nat, remreqpos: nat, ghost rest: string) returns (collected: nat)
      requires Valid() && k < |options|
      modifies `args, `parseOrder, options
      ensures Progress(Value(), collected, rest)
           == GatherOptional(mode, Progress(old(Value()), start, rest), k, remreqpos)
    {
      collected := start;
      while (collected < MaxNum(options[k].cfg) || options[k].cfg.allowExtraArgs) && args != []
            && Recognize(OptValues(), Next(args)) == Plain
        invariant GatherOptional(mode, Progress(Value(), collected, rest), k, remreqpos)
               == GatherOptional(mode, Progress(old(Value()), start, rest), k, remreqpos)
        decreases |args|
      {
        if remreqpos >= |args| {
          break;
        }
        if mode.validateOptionalArguments {
          if ValidateOne(options[k].cfg, Next(args), 0).Err? {
            break;
          }
        }
        assert WantsNext(mode, Progress(Value(), collected, rest), k, remreqpos);
        collected := TakeNextArg(k, collected, rest);
      }
    }

    method TakeNextArg(k: nat, before: nat, ghost rest: string) returns (collected: nat)
      requires Valid() && k < |options| && args != []
      modifies `args, `parseOrder, options
      ensures Progress(Value(), collected, rest) == TakeNext(Progress(old(Value()), before, rest), k)
    {
      var added := AddResult(k, Next(args));
      var current := PopArg();
      collected := before + added;
    }

    method TakeOptionalArguments(k: nat, start: nat, name: string, ghost rest: string) returns (r: Result<nat>)
      requires Valid() && k < |options|
      modifies `args, `parseOrder, options
      ensures match TakeOptional(mode, Progress(old(Value()), start, rest), k, name)
        case Ok(g) => r == Ok(g.collected) && Value() == g.p
        case Err(m) => r == Err(m)
    {
      var cfg := options[k].cfg;
      var collected := start;
      if MaxNum(cfg) > collected || cfg.allowExtraArgs {
        var remreqpos := CountRequired(OptValues());
        collected := TakeOptionalLoop(k, collected, remreqpos, rest);
        if args != [] && Recognize(OptValues(), Next(args)) == PositionalMark {
          var mark := PopArg();
        }
        if MinNum(cfg) == 0 && MaxNum(cfg) > 0 && collected == 0 {
          match cfg.flagValue(name, []) {
            case Err(m) => return Err(m);
            case Ok(text) =>
              var added := AddResult(k, text);
          }
        }
      }
      return Ok(collected);
    }

    /** A partial type is completed, or refused, and a triggered callback is run. */
    static method FinishOne(op: OptionObject, collected: nat) returns (r: Result<()>)
      modifies op
      ensures match FinishOpt(old(op.Value()), collected)
        case Ok(o) => r.Ok? && op.Value() == o
        case Err(m) => r == Err(m)
    {
      if MinNum(op.cfg) > 0 && op.cfg.typeSizeMax > 0 && collected % op.cfg.typeSizeMax != 0 {
        if op.cfg.typeSizeMax != op.cfg.typeSizeMin {
          var added := op.AddResult([]);
        } else {
          return Err("partial type");
        }
      }
      r := Ok(());
      if op.cfg.triggerOnParse {
        r := op.RunCallbackNow();
      }
    }

    method Finish(k: nat, collected: nat, rest: string) returns (r: Result<()>)
      requires Valid() && k < |options|
      modifies `args, options
      ensures match FinishOption(Progress(old(Value()), collected, rest), k)
        case Ok(after) => r.Ok? && Value() == after
        case Err(m) => r == Err(m)
    {
      ghost var before := OptValues();
      r := FinishOne(options[k], collected);
      if r.Err? {
        return;
      }
      assert OptValues() == before[k := options[k].Value()];
      if rest != [] {
        args := args + ["-" + rest];
      }
      return Ok(());
    }

    method ParseKnownOption(k: nat, name: string, value: string, rest: string) returns (r: Result<()>)
      requires Valid() && k < |options|
      modifies this, options
      ensures match ParseKnown(mode, old(Value()), k, name, value, rest)
        case Ok(after) => r.Ok? && Value() == after
        case Err(m) => r == Err(m)
    {
      PrepareOption(k);
      var first := TakeFirstValue(k, name, value, rest);
      if first.Err? {
        return Err(first.message);
      }
      var (collected, left) := first.value;
      collected := TakeMinimum(k, collected, left);
      if MinNum(options[k].cfg) > collected {
        return Err("too few");
      }
      var all := TakeOptionalArguments(k, collected, name, left);
      if all.Err? {
        return Err(all.message);
      }
      r := Finish(k, all.value, left);
    }

    method AssumedArguments(single: bool) returns (r: Result<()>)
      modifies `args, `missing
      ensures match AssumeArguments(mode, old(Value()), single)
        case Ok(after) => r.Ok? && Value() == after
        case Err(m) => r == Err(m)
    {
      while args != [] && Recognize(OptValues(), Next(args)) == Plain
        invariant AssumeArguments(mode, Value(), single) == AssumeArguments(mode, old(Value()), single)
        decreases |args|
      {
        r := Missing(Plain, Next(args));
        if r.Err? {
          return;
        }
        var current := PopArg();
        if single {
          return;
        }
      }
      return Ok(());
    }

    method ParseUnknownOption(c: Classifier, current: string) returns (r: Result<()>)
      modifies `args, `missing
      ensures match ParseUnknown(mode, old(Value()), c, current)
        case Ok(after) => r.Ok? && Value() == after
        case Err(m) => r == Err(m)
    {
      r := Missing(c, current);
      if r.Err? {
        return;
      }
      if mode.prefix == On {
        AllRemainingMissing();
      } else if mode.extras == AssumeSingleArgument {
        r := AssumedArguments(true);
      } else if mode.extras == AssumeMultipleArguments {
        r := AssumedArguments(false);
      }
    }

    method ParseArgument(c: Classifier) returns (r: Result<()>)
      requires Valid() && args != [] && (c == Long || c == Short)
      requires c == Long ==> SplitLong(Next(args)).Some?
      requires c == Short ==> SplitShort(Next(args)).Some?
      modifies this, options
      ensures match ParseArg(mode, old(Value()), c)
        case Ok(after) => r.Ok? && Value() == after
        case Err(m) => r == Err(m)
    {
      var current := PopArg();
      var (name, tail) := if c == Long then SplitLong(current).value else SplitShort(current).value;
      var k := FindOption(OptValues(), name, c == Short, 0);
      if k == |options| {
        r := ParseUnknownOption(c, current);
      } else {
        r := ParseKnownOption(k, name, if c == Long then tail else [], if c == Short then tail else []);
      }
    }

    /** A positional option takes a text; the results of its last run come back if it ends up with none. */
    static method TakeText(posOpt: OptionObject, s: string) returns (r: Result<()>)
      modifies posOpt
      ensures match TakePositional(old(posOpt.Value()), s)
        case Ok(o) => r.Ok? && posOpt.Value() == o
        case Err(m) => r == Err(m)
    {
      var prev: seq<string> := [];
      if posOpt.cfg.injectSeparator {
        if posOpt.results != [] && posOpt.results[|posOpt.results| - 1] != [] {
          var added := posOpt.AddResult([]);
        }
      }
      assert posOpt.Value() == Separated(old(posOpt.Value()));
      if posOpt.cfg.triggerOnParse && posOpt.phase == CallbackRun {
        prev := posOpt.results;
        posOpt.ClearResults();
      }
      var text := if posOpt.cfg.expectedMin == 0 then posOpt.cfg.positionalFlag(s) else Ok(s);
      if text.Err? {
        return Err(text.message);
      }
      var added := posOpt.AddResult(text.value);
      r := Ok(());
      if posOpt.cfg.triggerOnParse {
        if posOpt.results != [] {
          r := posOpt.RunCallbackNow();
        } else if prev != [] {
          posOpt.AddResults(prev);
        }
      }
    }

    method GivePositional(k: nat, s: string) returns (r: Result<()>)
      requires Valid() && k < |options|
      modifies options
      ensures match TakePositional(old(Value()).options[k], s)
        case Ok(o) => r.Ok? && Value() == WithOption(old(Value()), k, o)
        case Err(m) => r == Err(m)
    {
      ghost var before := OptValues();
      r := TakeText(options[k], s);
      assert OptValues() == before[k := options[k].Value()];
    }

    method ParsePositionalArgument() returns (r: Result<()>)
      requires Valid() && args != []
      modifies this, options
      ensures match ParsePositional(mode, old(Value()))
        case Ok(after) => r.Ok? && Value() == after
        case Err(m) => r == Err(m)
    {
      var k := ChoosePositional(mode, Value());
      if k < |options| {
        parseOrder := parseOrder + [k];
        r := GivePositional(k, Next(args));
        if r.Ok? {
          var s := PopArg();
        }
        return;
      }
      if mode.positionalsAtEnd {
        return Err("extra argument");
      }
      r := Missing(Plain, Next(args));
      if r.Ok? {
        var s := PopArg();
        if mode.prefix != Off {
          AllRemainingMissing();
        }
      }
    }

    method ParseNext() returns (r: Result<()>)
      requires Valid() && args != []
      modifies this, options
      ensures match ParseSingle(mode, old(Value()))
        case Ok(after) => r.Ok? && Value() == after
        case Err(m) => r == Err(m)
    {
      var classifier := if positionalOnly then Plain else Recognize(OptValues(), Next(args));
      match classifier {
        case PositionalMark =>
          var s := PopArg();
          positionalOnly := true;
          if mode.prefix != Off {
            missing := missing + [(PositionalMark, "--")];
            AllRemainingMissing();
            r := Ok(());
          } else {
            r := Missing(PositionalMark, "--");
          }
        case Short => r := ParseArgument(Short);
        case Long => r := ParseArgument(Long);
        case Plain =>
          r := ParsePositionalArgument();
          if r.Ok? && mode.positionalsAtEnd {
            positionalOnly := true;
          }
      }
    }

    /** The loop of `_parse`. */
    method Parse() returns (r: Result<()>)
      requires Valid()
      modifies this, options
      ensures match ParseAll(mode, old(Value()))
        case Ok(after) => r.Ok? && Value() == after
        case Err(m) => r == Err(m)
    {
      while args != []
        invariant ParseAll(mode, Value()) == ParseAll(mode, old(Value()))
        decreases Weight(args)
      {
        ghost var before := Value();
        r := ParseNext();
        if r.Err? {
          return;
        }
        StepShrinks(mode, before);
      }
      return Ok(());
    }

    /** `_process_callbacks`. */
    method ProcessCallbacks(priority: nat, order: seq<nat>) returns (r: Result<seq<nat>>)
      requires Valid()
      modifies options
      ensures match RunPass(RunCallback, Ran(old(OptValues()), order), priority, 0)
        case Ok(after) => r == Ok(after.order) && OptValues() == after.options
        case Err(m) => r == Err(m)
    {
      var ran: seq<nat> := order;
      for i := 0 to |options|
        invariant RunPass(RunCallback, Ran(OptValues(), ran), priority, i)
               == RunPass(RunCallback, Ran(old(OptValues()), order), priority, 0)
      {
        var opt := options[i];
        if opt.cfg.priority == priority {
          if (opt.results != [] || opt.cfg.forceCallback) && opt.phase != CallbackRun {
            ghost var before := OptValues();
            var done := opt.RunCallbackNow();
            if done.Err? {
              return Err(done.message);
            }
            assert OptValues() == before[i := opt.Value()];
            ran := ran + [i];
          }
        }
      }
      return Ok(ran);
    }

    /** `_process`, without help flags, config file, environment and requirements: the order of the callbacks. */
    method Process() returns (r: Result<seq<nat>>)
      requires Valid()
      modifies options
      ensures match RunPasses(RunCallback, Ran(old(OptValues()), []), 0)
        case Ok(after) => r == Ok(after.order) && OptValues() == after.options
        case Err(m) => r == Err(m)
    {
      r := Ok([]);
      for priority := 0 to PRIORITIES
        invariant r.Ok?
        invariant RunPasses(RunCallback, Ran(OptValues(), r.value), priority)
               == RunPasses(RunCallback, Ran(old(OptValues()), []), 0)
      {
        r := ProcessCallbacks(priority, r.value);
        if r.Err? {
          return;
        }
      }
    }

    /** `_parse` up to the check for left-over arguments; gives the order of the callbacks. */
    method ParseAndProcess() returns (r: Result<seq<nat>>)
      requires Valid()
      modifies this, options
      ensures match FlatRuns.Run(mode, old(Value()))
        case Ok(after) => r == Ok(after.order) && OptValues() == after.options
        case Err(m) => r == Err(m)
    {
      var parsed := Parse();
      if parsed.Err? {
        return Err(parsed.message);
      }
      r := Process();
    }
  }
}
