/** The option state machine: results are collected, validated, reduced according to a policy, and handed to a callback.
    Main results: `ValidatedIsKeptExactly` and `CallbackSeesValidatedResults`. */
module Options {
  import opened Text
  import opened CheckedArithmetic
  import ConfigValues

  datatype Policy = Throw | TakeLast | TakeFirst | Join | TakeAll | Sum | Reverse

  /** `option_state`, in order. */
  datatype Phase = Parsing | Validated | Reduced | CallbackRun

  /** What does not change while arguments are parsed. `validate` is the list of validators, given a text and an index;
      `callback` says whether the conversion succeeded; `flagValue` is `get_flag_value`, `positionalFlag` the text that
      `_add_flag_like_result` records for a positional, and `total` sums numbers. */
  datatype Config = Config(
    snames: seq<string>, lnames: seq<string>, positional: bool, required: bool,
    typeSizeMin: nat, typeSizeMax: nat, expectedMin: nat, expectedMax: nat,
    policy: Policy, delimiter: char, allowExtraArgs: bool,
    injectSeparator: bool, triggerOnParse: bool, forceCallback: bool, priority: nat,
    defaultStr: string, hasCallback: bool,
    validate: (string, int) -> Result<string>, callback: seq<string> -> bool,
    flagValue: (string, string) -> Result<string>, positionalFlag: string -> Result<string>,
    total: seq<string> -> string)

  /** Two history variables, which the source does not have, follow the fields: how many results were added since the
      last validation, and what was handed to the callback together with that number. */
  datatype Opt = Opt(cfg: Config, results: seq<string>, procResults: seq<string>, phase: Phase,
                     unchecked: nat, sent: seq<(seq<string>, nat)>)

  const VECTOR_SIZE := 0x2000_0000

  function ItemsMin(cfg: Config): nat {
    cfg.typeSizeMin * cfg.expectedMin
  }

  /** `get_items_expected_max`, with its overflow check. */
  function ItemsMax(cfg: Config): int {
    var (fits, t) := CheckedMultiply(INT, cfg.typeSizeMax, cfg.expectedMax);
    if fits then t else VECTOR_SIZE
  }

  // ----- adding results -----

  function Rules(cfg: Config): ConfigValues.ResultRules {
    ConfigValues.ResultRules(cfg.allowExtraArgs || cfg.expectedMax > 1 || cfg.typeSizeMin > 1, cfg.delimiter)
  }

  function Added(cfg: Config, s: string): seq<string> {
    ConfigValues.AddResult(Rules(cfg), s)
  }

  function Add(o: Opt, s: string): Opt {
    o.(results := o.results + Added(o.cfg, s), phase := Parsing, unchecked := o.unchecked + |Added(o.cfg, s)|)
  }

  function AddAll(o: Opt, texts: seq<string>): Opt
    decreases |texts|
  {
    if texts == [] then o.(phase := Parsing) else AddAll(Add(o, texts[0]), texts[1..])
  }

  function Clear(o: Opt): Opt {
    o.(results := [], procResults := [], phase := Parsing, unchecked := 0)
  }

  // ----- validation -----

  predicate IsSeparator(s: string) {
    s == [] || s == "%%"
  }

  predicate KeepsLast(cfg: Config) {
    cfg.policy == TakeLast || cfg.policy == Reverse
  }

  /** The index that the first result is validated at; negative when results are in excess. */
  function FirstIndex(cfg: Config, count: nat): int {
    var limit := if cfg.typeSizeMax > 1 then ItemsMax(cfg) else cfg.expectedMax;
    if limit < count && KeepsLast(cfg) then limit - count else 0
  }

  /** The index that each result is validated at, from running index `index` on; none for a skipped separator. */
  function Indexes(cfg: Config, results: seq<string>, index: int): (r: seq<Option<int>>)
    ensures |r| == |results|
  {
    if results == [] then []
    else if cfg.typeSizeMax > 1 && IsSeparator(results[0]) && cfg.typeSizeMax != cfg.typeSizeMin && index >= 0 then
      [None] + Indexes(cfg, results[1..], 0)
    else
      var at := if cfg.typeSizeMax > 1 && index >= 0 then index % cfg.typeSizeMax else index;
      [Some(at)] + Indexes(cfg, results[1..], index + 1)
  }

  function ValidateOne(cfg: Config, s: string, index: int): Result<string> {
    if s == [] && cfg.expectedMin == 0 then Ok(s) else cfg.validate(s, index)
  }

  /** One round of the validation loop: the text as its validators leave it, and the next running index. */
  function ValidateStep(cfg: Config, s: string, index: int): Result<(string, int)> {
    if cfg.typeSizeMax > 1 && IsSeparator(s) && cfg.typeSizeMax != cfg.typeSizeMin && index >= 0 then Ok((s, 0))
    else
      match ValidateOne(cfg, s, if cfg.typeSizeMax > 1 && index >= 0 then index % cfg.typeSizeMax else index)
      case Err(m) => Err(m)
      case Ok(text) => Ok((text, index + 1))
  }

  function ValidateFrom(cfg: Config, results: seq<string>, index: int): Result<seq<string>> {
    if results == [] then Ok([])
    else
      match ValidateStep(cfg, results[0], index)
      case Err(m) => Err(m)
      case Ok((text, next)) => PrependResult([text], ValidateFrom(cfg, results[1..], next))
  }

  function PrependResult(done: seq<string>, r: Result<seq<string>>): (p: Result<seq<string>>)
    ensures done == [] ==> p == r
  {
    match r
    case Err(m) => Err(m)
    case Ok(rest) =>
      assert done == [] ==> done + rest == rest;
      Ok(done + rest)
  }

  /** `_validate_results`; a validator may also change the text. */
  function ValidateAll(cfg: Config, results: seq<string>): Result<seq<string>> {
    ValidateFrom(cfg, results, FirstIndex(cfg, |results|))
  }

  // ----- reduction -----

  function Min(a: int, b: int): int {
    if a < b then a else b
  }

  function Max(a: int, b: int): int {
    if a < b then b else a
  }

  function TrimSize(cfg: Config, count: nat): (n: nat)
    ensures n <= count
  {
    Min(Max(ItemsMax(cfg), 1), count)
  }

  function Reversed(s: seq<string>): (r: seq<string>)
    ensures |r| == |s|
  {
    if s == [] then [] else Reversed(s[1..]) + [s[0]]
  }

  /** `detail::join`: a delimiter at the very end is taken off again. */
  function JoinWith(parts: seq<string>, delim: char): string
    requires parts != []
  {
    var joined := parts[0] + JoinRest(parts[1..], delim);
    if joined != [] && joined[|joined| - 1] == delim then joined[..|joined| - 1] else joined
  }

  function JoinRest(parts: seq<string>, delim: char): string {
    if parts == [] then [] else [delim] + parts[0] + JoinRest(parts[1..], delim)
  }

  /** The switch of `_reduce_results`: an empty list stands for "the original, unchanged". */
  function ByPolicy(cfg: Config, original: seq<string>): Result<seq<string>> {
    var trim := TrimSize(cfg, |original|);
    match cfg.policy
    case TakeAll => Ok([])
    case TakeLast => Ok(if |original| != trim then original[|original| - trim..] else [])
    case Reverse => Ok(if |original| != trim || trim > 1 then Reversed(original[|original| - trim..]) else [])
    case TakeFirst => Ok(if |original| != trim then original[..trim] else [])
    case Join =>
      Ok(if |original| > 1 then [JoinWith(original, if cfg.delimiter == '\0' then '\n' else cfg.delimiter)] else [])
    case Sum => Ok([cfg.total(original)])
    case Throw =>
      if |original| < Max(ItemsMin(cfg), 1) then Err("too few")
      else if |original| > (if ItemsMax(cfg) == 0 then 1 else ItemsMax(cfg)) then
        if ItemsMax(cfg) <= 1 && original == ["{}", "%%"] then Ok(original) else Err("too many")
      else Ok([])
  }

  /** `_reduce_results`, with the mark for an empty container. */
  function Reduce(cfg: Config, original: seq<string>): Result<seq<string>> {
    match ByPolicy(cfg, original)
    case Err(m) => Err(m)
    case Ok(out) =>
      if ItemsMin(cfg) > 0 && (out == ["{}"] || (out == [] && original == ["{}"])) then Ok(["{}", "%%"]) else Ok(out)
  }

  /** The results that count: the reduced ones, if there are any. */
  function Effective(reduced: seq<string>, original: seq<string>): seq<string> {
    if reduced == [] then original else reduced
  }

  // ----- the callback -----

  predicate ReadyToRun(o: Opt) {
    (o.results != [] || o.cfg.forceCallback) && o.phase != CallbackRun
  }

  function EnsureValidated(o: Opt): Result<Opt> {
    if o.phase != Parsing then Ok(o)
    else
      match ValidateAll(o.cfg, o.results)
      case Err(m) => Err(m)
      case Ok(checked) => Ok(o.(results := checked, phase := Validated, unchecked := 0))
  }

  function EnsureReduced(o: Opt): Result<Opt> {
    if o.phase == Reduced || o.phase == CallbackRun then Ok(o)
    else
      match Reduce(o.cfg, o.results)
      case Err(m) => Err(m)
      case Ok(out) => Ok(o.(procResults := out))
  }

  function Send(o: Opt, usedDefault: bool): Result<Opt> {
    var ran := o.(phase := CallbackRun);
    var results := Effective(o.procResults, o.results);
    if !o.cfg.hasCallback || results == [] then Ok(ran)
    else
      var done := ran.(sent := ran.sent + [(results, ran.unchecked)]);
      if !o.cfg.callback(results) then Err("conversion failed")
      else if usedDefault then Ok(done.(results := [], procResults := []))
      else Ok(done)
  }

  /** `run_callback`. */
  function RunCallback(o: Opt): Result<Opt> {
    var usedDefault := o.cfg.forceCallback && o.results == [];
    match EnsureValidated(if usedDefault then Add(o, o.cfg.defaultStr) else o)
    case Err(m) => Err(m)
    case Ok(checked) =>
      match EnsureReduced(checked)
      case Err(m) => Err(m)
      case Ok(reduced) => Send(reduced, usedDefault)
  }

  /** The option as the source has it: results, processed results and phase are updated in place. */
  class OptionObject {
    const cfg: Config
    var results: seq<string>
    var procResults: seq<string>
    var phase: Phase
    var unchecked: nat
    var sent: seq<(seq<string>, nat)>

    function Value(): Opt
      reads this
    {
      Opt(cfg, results, procResults, phase, unchecked, sent)
    }

    constructor (cfg: Config)
      ensures Value() == Opt(cfg, [], [], Parsing, 0, [])
    {
      this.cfg := cfg;
      results, procResults, phase, unchecked, sent := [], [], Parsing, 0, [];
    }

    method AddResult(s: string) returns (added: nat)
      modifies this
      ensures Value() == Add(old(Value()), s) && added == |Added(cfg, s)|
    {
      var before := |results|;
      results := ConfigValues.AddResultInPlace(Rules(cfg), s, results);
      added := |results| - before;
      phase := Parsing;
      unchecked := unchecked + added;
    }

    /** `add_result` with a list of texts. */
    method AddResults(texts: seq<string>)
      modifies this
      ensures Value() == AddAll(old(Value()), texts)
    {
      phase := Parsing;
      for i := 0 to |texts|
        invariant phase == Parsing && AddAll(Value(), texts[i..]) == AddAll(old(Value()), texts)
      {
        assert texts[i..][1..] == texts[i + 1..];
        var added := AddResult(texts[i]);
      }
    }

    method ClearResults()
      modifies this
      ensures Value() == Clear(old(Value()))
    {
      results, procResults, phase, unchecked := [], [], Parsing, 0;
    }

    /** `_validate_results` on a list. */
    method ValidateResults(res: seq<string>) returns (r: Result<seq<string>>)
      ensures r == ValidateAll(cfg, res)
    {
      var index := FirstIndex(cfg, |res|);
      var done: seq<string> := [];
      assert res[0..] == res;
      for i := 0 to |res|
        invariant PrependResult(done, ValidateFrom(cfg, res[i..], index)) == ValidateAll(cfg, res)
      {
        assert res[i..][1..] == res[i + 1..];
        match ValidateStep(cfg, res[i], index) {
          case Err(m) => return Err(m);
          case Ok((text, next)) =>
            AppendDone(done, text, ValidateFrom(cfg, res[i + 1..], next));
            done := done + [text];
            index := next;
        }
      }
      assert done + [] == done;
      return Ok(done);
    }

    method EnsureValidatedNow() returns (r: Result<()>)
      modifies `results, `phase, `unchecked
      ensures match EnsureValidated(old(Value()))
        case Ok(after) => r.Ok? && Value() == after
        case Err(m) => r == Err(m)
    {
      if phase == Parsing {
        var checked := ValidateResults(results);
        match checked {
          case Err(m) => return Err(m);
          case Ok(texts) => results := texts;
        }
        phase := Validated;
        unchecked := 0;
      }
      return Ok(());
    }

    method EnsureReducedNow() returns (r: Result<()>)
      modifies `procResults
      ensures match EnsureReduced(old(Value()))
        case Ok(after) => r.Ok? && Value() == after
        case Err(m) => r == Err(m)
    {
      if phase == Parsing || phase == Validated {
        match Reduce(cfg, results) {
          case Err(m) => return Err(m);
          case Ok(out) => procResults := out;
        }
      }
      return Ok(());
    }

    method SendNow(usedDefaultStr: bool) returns (r: Result<()>)
      modifies this
      ensures match Send(old(Value()), usedDefaultStr)
        case Ok(after) => r.Ok? && Value() == after
        case Err(m) => r == Err(m)
    {
      phase := CallbackRun;
      if cfg.hasCallback {
        var sendResults := if procResults == [] then results else procResults;
        if sendResults == [] {
          return Ok(());
        }
        sent := sent + [(sendResults, unchecked)];
        var localResult := cfg.callback(sendResults);
        if usedDefaultStr {
          results, procResults := [], [];
        }
        if !localResult {
          return Err("conversion failed");
        }
      }
      return Ok(());
    }

    method RunCallbackNow() returns (r: Result<()>)
      modifies this
      ensures match RunCallback(old(Value()))
        case Ok(after) => r.Ok? && Value() == after
        case Err(m) => r == Err(m)
    {
      var usedDefaultStr := false;
      if cfg.forceCallback && results == [] {
        usedDefaultStr := true;
        var added := AddResult(cfg.defaultStr);
      }
      r := EnsureValidatedNow();
      if r.Err? {
        return;
      }
      r := EnsureReducedNow();
      if r.Err? {
        return;
      }
      r := SendNow(usedDefaultStr);
    }
  }

  lemma AppendDone(done: seq<string>, first: string, rest: Result<seq<string>>)
    ensures PrependResult(done, PrependResult([first], rest)) == PrependResult(done + [first], rest)
  {
    if rest.Ok? {
      assert done + ([first] + rest.value) == done + [first] + rest.value;
    }
  }

  // ----- validation and reduction agree -----

  predicate FixedSize(cfg: Config) {
    && cfg.typeSizeMin == cfg.typeSizeMax && cfg.typeSizeMax >= 1
    && INT.Holds(cfg.typeSizeMax) && INT.Holds(cfg.expectedMax)
  }

  /** How many of `count` results a trimming policy keeps, and they are the last ones. */
  function Kept(cfg: Config, original: seq<string>): seq<string> {
    original[|original| - TrimSize(cfg, |original|)..]
  }

  lemma {:induction false} IndexesCountUp(cfg: Config, results: seq<string>, index: int, i: nat)
    requires FixedSize(cfg) && i < |results|
    ensures Indexes(cfg, results, index)[i]
         == Some(if cfg.typeSizeMax > 1 && index + i >= 0 then (index + i) % cfg.typeSizeMax else index + i)
  {
    if i > 0 {
      IndexesCountUp(cfg, results[1..], index + 1, i - 1);
    }
  }

  /** For a fixed-size option, `expected_max_` and the item count agree on whether anything is expected. */
  lemma ItemsMaxOfFixedSize(cfg: Config)
    requires FixedSize(cfg)
    ensures cfg.typeSizeMax == 1 ==> ItemsMax(cfg) == cfg.expectedMax
    ensures ItemsMax(cfg) >= 0 && (ItemsMax(cfg) == 0 <==> cfg.expectedMax == 0)
  {
    MultiplyIsExact(INT, cfg.typeSizeMax, cfg.expectedMax);
    AtLeastItself(cfg.typeSizeMax, cfg.expectedMax);
  }

  lemma AtLeastItself(size: nat, n: nat)
    requires size >= 1
    ensures size * n >= n && (n == 0 ==> size * n == 0) && (size == 1 ==> size * n == n)
  {
    NonNegative(size - 1, n);
    assert size * n == (size - 1) * n + n;
  }

  /** What `_reduce_results` leaves for a fixed-size option under TakeLast: the kept results, and the mark if they are
      just the empty container. Under Reverse it is the same results backwards. */
  lemma ReductionKeepsLast(cfg: Config, original: seq<string>)
    requires FixedSize(cfg) && KeepsLast(cfg)
    ensures Reduce(cfg, original).Ok?
    ensures var effective := Effective(Reduce(cfg, original).value, original);
      var kept := if cfg.policy == Reverse then Reversed(Kept(cfg, original)) else Kept(cfg, original);
      effective == if ItemsMin(cfg) > 0 && kept == ["{}"] then ["{}", "%%"] else kept
  {
    var trim := TrimSize(cfg, |original|);
    ItemsMaxOfFixedSize(cfg);
    if |original| == trim {
      assert original[0..] == original;
      if trim == 1 {
        assert Reversed(original) == original;
      }
    }
  }

  /** Result `i` is validated at an index that is not negative. */
  predicate ValidatedAt(cfg: Config, results: seq<string>, i: nat)
    requires i < |results|
  {
    var at := Indexes(cfg, results, FirstIndex(cfg, |results|))[i];
    at.Some? && at.value >= 0
  }

  /** For a fixed-size option that keeps its last results, the results validated at an index that is not negative are
      exactly those that reduction keeps, unless no item is expected and yet one is given. */
  lemma ValidatedIsKeptExactly(cfg: Config, results: seq<string>)
    requires FixedSize(cfg) && KeepsLast(cfg)
    ensures (forall i :: 0 <= i < |results| ==>
        (ValidatedAt(cfg, results, i) <==> i >= |results| - TrimSize(cfg, |results|)))
      <==> cfg.expectedMax >= 1 || results == []
  {
    ItemsMaxOfFixedSize(cfg);
    var first := FirstIndex(cfg, |results|);
    forall i | 0 <= i < |results|
      ensures ValidatedAt(cfg, results, i) <==> first + i >= 0
    {
      IndexesCountUp(cfg, results, first, i);
    }
    if cfg.expectedMax == 0 && results != [] {
      assert !ValidatedAt(cfg, results, |results| - 1);
    }
  }

  /** The `k`-th kept result is validated at index `k`, or at its place within the type. */
  lemma KeptIsValidatedInPlace(cfg: Config, results: seq<string>, k: nat)
    requires FixedSize(cfg) && KeepsLast(cfg) && cfg.expectedMax >= 1 && k < TrimSize(cfg, |results|)
    ensures Kept(cfg, results)[k] == results[|results| - TrimSize(cfg, |results|) + k]
    ensures Indexes(cfg, results, FirstIndex(cfg, |results|))[|results| - TrimSize(cfg, |results|) + k]
         == Some(if cfg.typeSizeMax > 1 then k % cfg.typeSizeMax else k)
  {
    var dropped := |results| - TrimSize(cfg, |results|);
    assert Kept(cfg, results) == results[dropped..];
    assert FirstIndex(cfg, |results|) + dropped == 0 by {
      FirstKeptHasIndexZero(cfg, |results|);
    }
    IndexCountsUp(cfg, results, FirstIndex(cfg, |results|), dropped + k, k);
  }

  lemma FirstKeptHasIndexZero(cfg: Config, count: nat)
    requires FixedSize(cfg) && KeepsLast(cfg) && cfg.expectedMax >= 1
    ensures FirstIndex(cfg, count) + (count - TrimSize(cfg, count)) == 0
  {
    ItemsMaxOfFixedSize(cfg);
  }

  lemma IndexCountsUp(cfg: Config, results: seq<string>, index: int, i: nat, at: nat)
    requires FixedSize(cfg) && i < |results| && index + i == at
    ensures Indexes(cfg, results, index)[i] == Some(if cfg.typeSizeMax > 1 then at % cfg.typeSizeMax else at)
  {
    IndexesCountUp(cfg, results, index, i);
  }

  /** Validation keeps the number of results, and gives each what its validators make of it at its index. */
  lemma {:induction false} ValidationIsPointwise(cfg: Config, results: seq<string>, index: int)
    requires ValidateFrom(cfg, results, index).Ok?
    ensures var checked := ValidateFrom(cfg, results, index).value;
      && |checked| == |results|
      && forall i :: 0 <= i < |results| ==>
        match Indexes(cfg, results, index)[i]
        case None => checked[i] == results[i]
        case Some(at) => ValidateOne(cfg, results[i], at) == Ok(checked[i])
    decreases |results|
  {
    if results != [] {
      var next := ValidateStep(cfg, results[0], index).value.1;
      var rest := Indexes(cfg, results[1..], next);
      ValidationIsPointwise(cfg, results[1..], next);
      assert Indexes(cfg, results, index)[1..] == rest;
      forall i | 1 <= i < |results| ensures Indexes(cfg, results, index)[i] == rest[i - 1] {
        assert Indexes(cfg, results, index)[1..][i - 1] == Indexes(cfg, results, index)[i];
      }
    }
  }

  /** Together: what a fixed-size option that keeps its last results ends up with are its last results, the `k`-th of
      them as its validators for index `k` (or its place within the type) left it. */
  lemma KeptResultsWereValidated(cfg: Config, results: seq<string>, k: nat)
    requires FixedSize(cfg) && KeepsLast(cfg) && cfg.expectedMax >= 1 && k < TrimSize(cfg, |results|)
    requires ValidateAll(cfg, results).Ok?
    ensures var checked := ValidateAll(cfg, results).value;
      && |checked| == |results|
      && ValidateOne(cfg, Kept(cfg, results)[k], if cfg.typeSizeMax > 1 then k % cfg.typeSizeMax else k)
          == Ok(Kept(cfg, checked)[k])
  {
    KeptIsValidatedInPlace(cfg, results, k);
    ValidatedAtIndex(cfg, results, FirstIndex(cfg, |results|), |results| - TrimSize(cfg, |results|) + k);
  }

  lemma ValidatedAtIndex(cfg: Config, results: seq<string>, index: int, i: nat)
    requires ValidateFrom(cfg, results, index).Ok? && i < |results|
    ensures var checked := ValidateFrom(cfg, results, index).value;
      && |checked| == |results|
      && match Indexes(cfg, results, index)[i]
         case None => checked[i] == results[i]
         case Some(at) => ValidateOne(cfg, results[i], at) == Ok(checked[i])
  {
    ValidationIsPointwise(cfg, results, index);
  }

  // ----- the callback only sees validated results -----

  /** Once an option has left the parsing phase, none of its results is unvalidated; and no callback ever saw one. */
  predicate Sound(o: Opt) {
    (o.phase != Parsing ==> o.unchecked == 0) && forall i :: 0 <= i < |o.sent| ==> o.sent[i].1 == 0
  }

  datatype Action = AddAction(s: string) | AddAllAction(texts: seq<string>) | ClearAction | RunAction

  /** Effect of a series of actions; an exception ends it. */
  function ActAll(o: Opt, actions: seq<Action>): Opt
    decreases |actions|
  {
    if actions == [] then o
    else
      match actions[0]
      case AddAction(s) => ActAll(Add(o, s), actions[1..])
      case AddAllAction(texts) => ActAll(AddAll(o, texts), actions[1..])
      case ClearAction => ActAll(Clear(o), actions[1..])
      case RunAction => match RunCallback(o) case Ok(after) => ActAll(after, actions[1..]) case Err(_) => o
  }

  lemma RunEndsRun(o: Opt)
    requires RunCallback(o).Ok?
    ensures RunCallback(o).value.phase == CallbackRun && RunCallback(o).value.cfg == o.cfg
    ensures o.sent <= RunCallback(o).value.sent
  {
  }

  lemma RunCallbackIsSound(o: Opt)
    requires Sound(o) && RunCallback(o).Ok?
    ensures Sound(RunCallback(o).value)
  {
  }

  lemma {:induction false} AddAllIsSound(o: Opt, texts: seq<string>)
    requires Sound(o)
    ensures Sound(AddAll(o, texts))
    decreases |texts|
  {
    if texts != [] {
      AddAllIsSound(Add(o, texts[0]), texts[1..]);
    }
  }

  /** In every run of adding, clearing and callbacks, no callback is handed results that were added since the last
      validation. */
  lemma {:induction false} CallbackSeesValidatedResults(o: Opt, actions: seq<Action>)
    requires Sound(o)
    ensures Sound(ActAll(o, actions))
    decreases |actions|
  {
    if actions != [] {
      match actions[0] {
        case AddAction(s) => CallbackSeesValidatedResults(Add(o, s), actions[1..]);
        case AddAllAction(texts) =>
          AddAllIsSound(o, texts);
          CallbackSeesValidatedResults(AddAll(o, texts), actions[1..]);
        case ClearAction => CallbackSeesValidatedResults(Clear(o), actions[1..]);
        case RunAction =>
          if RunCallback(o).Ok? {
            RunCallbackIsSound(o);
            CallbackSeesValidatedResults(RunCallback(o).value, actions[1..]);
          }
      }
    }
  }

  /** What the callback is handed, for an option with results still being parsed: the validated results, reduced. */
  lemma CallbackSeesReducedResults(o: Opt)
    requires o.phase == Parsing && o.results != [] && o.cfg.hasCallback && RunCallback(o).Ok?
    ensures var checked := ValidateAll(o.cfg, o.results);
      && checked.Ok? && Reduce(o.cfg, checked.value).Ok?
      && var seen := Effective(Reduce(o.cfg, checked.value).value, checked.value);
        RunCallback(o).value.sent == o.sent + if seen == [] then [] else [(seen, 0)]
  {
  }
}
