/** Running the callbacks of a flat application: `_process` without help, config file or environment makes one pass over
    the options for each priority. Main result: `CallbacksRunOnceInOrder`. */
module Callbacks {
  import opened Text
  import opened Options

  /** `CallbackPriority` has eight values. */
  const PRIORITIES := 8

  /** The options, and the indices of those whose callback was run, in order. */
  datatype Ran = Ran(options: seq<Opt>, order: seq<nat>)

  /** How the callback of an option is run. The order in which it happens does not depend on what it does. */
  type Runner = Opt -> Result<Opt>

  /** A callback that was run is not due any more. */
  ghost predicate EndsRun(run: Runner) {
    forall o :: run(o).Ok? ==> run(o).value.phase == CallbackRun && run(o).value.cfg == o.cfg
  }

  function RunOne(run: Runner, s: Ran, priority: nat, i: nat): (r: Result<Ran>)
    requires i < |s.options|
    ensures r.Ok? ==> |r.value.options| == |s.options|
  {
    var o := s.options[i];
    if o.cfg.priority == priority && ReadyToRun(o) then
      match run(o)
      case Err(m) => Err(m)
      case Ok(after) => Ok(Ran(s.options[i := after], s.order + [i]))
    else Ok(s)
  }

  /** `_process_callbacks` from option `i` on. */
  function RunPass(run: Runner, s: Ran, priority: nat, i: nat): (r: Result<Ran>)
    requires i <= |s.options|
    ensures r.Ok? ==> |r.value.options| == |s.options|
    decreases |s.options| - i
  {
    if i == |s.options| then Ok(s)
    else
      match RunOne(run, s, priority, i)
      case Err(m) => Err(m)
      case Ok(t) => RunPass(run, t, priority, i + 1)
  }

  /** `_process` from one priority on. */
  function RunPasses(run: Runner, s: Ran, priority: nat): Result<Ran>
    requires priority <= PRIORITIES
    decreases PRIORITIES - priority
  {
    if priority == PRIORITIES then Ok(s)
    else
      match RunPass(run, s, priority, 0)
      case Err(m) => Err(m)
      case Ok(t) => RunPasses(run, t, priority + 1)
  }

  /** The order of a stable sort by priority. */
  predicate Before(options: seq<Opt>, i: nat, j: nat)
    requires i < |options| && j < |options|
  {
    options[i].cfg.priority < options[j].cfg.priority
    || (options[i].cfg.priority == options[j].cfg.priority && i < j)
  }

  /** Option `j` has had its turn when the pass for `priority` is at option `i`. */
  predicate HadTurn(options: seq<Opt>, j: nat, priority: nat, i: nat)
    requires j < |options|
  {
    options[j].cfg.priority < priority || (options[j].cfg.priority == priority && j < i)
  }

  predicate Runs(options: seq<Opt>, j: nat, priority: nat, i: nat)
    requires j < |options|
  {
    ReadyToRun(options[j]) && HadTurn(options, j, priority, i)
  }

  /** The state in the middle of a pass, in terms of the options at the start. */
  ghost predicate Halfway(run: Runner, options: seq<Opt>, s: Ran, priority: nat, i: nat) {
    && |s.options| == |options|
    && (forall j :: 0 <= j < |options| ==>
        if Runs(options, j, priority, i) then run(options[j]) == Ok(s.options[j]) else s.options[j] == options[j])
    && (forall a :: 0 <= a < |s.order| ==> s.order[a] < |options| && Runs(options, s.order[a], priority, i))
    && (forall j: nat :: j < |options| && Runs(options, j, priority, i) ==> j in s.order)
    && (forall a, b :: 0 <= a < b < |s.order| ==> Before(options, s.order[a], s.order[b]))
  }

  lemma OneKeepsHalfway(run: Runner, options: seq<Opt>, s: Ran, priority: nat, i: nat)
    requires EndsRun(run) && Halfway(run, options, s, priority, i) && i < |options| && RunOne(run, s, priority, i).Ok?
    ensures Halfway(run, options, RunOne(run, s, priority, i).value, priority, i + 1)
  {
    var t := RunOne(run, s, priority, i).value;
    assert options[i].cfg.priority == priority ==> !HadTurn(options, i, priority, i) && s.options[i] == options[i];
    forall j | 0 <= j < |options| && j != i
      ensures Runs(options, j, priority, i) <==> Runs(options, j, priority, i + 1)
    {
    }
    if options[i].cfg.priority == priority && ReadyToRun(options[i]) {
      assert t.order == s.order + [i];
      forall a | 0 <= a < |s.order| ensures Before(options, s.order[a], i) {
        assert Runs(options, s.order[a], priority, i);
      }
    } else {
      assert Runs(options, i, priority, i) <==> Runs(options, i, priority, i + 1);
      assert s.options[i].cfg == options[i].cfg;
      assert t == s;
    }
  }

  lemma {:induction false} PassKeepsHalfway(run: Runner, options: seq<Opt>, s: Ran, priority: nat, i: nat)
    requires EndsRun(run) && Halfway(run, options, s, priority, i) && i <= |options| && RunPass(run, s, priority, i).Ok?
    ensures Halfway(run, options, RunPass(run, s, priority, i).value, priority + 1, 0)
    decreases |options| - i
  {
    if i == |options| {
      PassEnds(run, options, s, priority);
    } else {
      OneKeepsHalfway(run, options, s, priority, i);
      PassKeepsHalfway(run, options, RunOne(run, s, priority, i).value, priority, i + 1);
    }
  }

  lemma PassEnds(run: Runner, options: seq<Opt>, s: Ran, priority: nat)
    requires Halfway(run, options, s, priority, |options|)
    ensures Halfway(run, options, s, priority + 1, 0)
  {
    forall j | 0 <= j < |options|
      ensures Runs(options, j, priority, |options|) <==> Runs(options, j, priority + 1, 0)
    {
    }
  }

  lemma {:induction false} PassesKeepHalfway(run: Runner, options: seq<Opt>, s: Ran, priority: nat)
    requires EndsRun(run) && Halfway(run, options, s, priority, 0)
    requires priority <= PRIORITIES && RunPasses(run, s, priority).Ok?
    ensures Halfway(run, options, RunPasses(run, s, priority).value, PRIORITIES, 0)
    decreases PRIORITIES - priority
  {
    if priority < PRIORITIES {
      PassKeepsHalfway(run, options, s, priority, 0);
      PassesKeepHalfway(run, options, RunPass(run, s, priority, 0).value, priority + 1);
    }
  }

  /** An option that has results hands them to its callback, once, and validated. */
  lemma RunHandsOver(o: Opt)
    requires o.results != [] && o.cfg.hasCallback && Sound(o) && RunCallback(o).Ok?
    ensures |RunCallback(o).value.sent| == |o.sent| + 1
    ensures RunCallback(o).value.sent[..|o.sent|] == o.sent && RunCallback(o).value.sent[|o.sent|].1 == 0
  {
    if o.phase == Parsing {
      ValidationIsPointwise(o.cfg, o.results, FirstIndex(o.cfg, |o.results|));
    }
  }

  predicate InOrder(options: seq<Opt>, order: seq<nat>) {
    && (forall a :: 0 <= a < |order| ==> order[a] < |options|)
    && forall a, b :: 0 <= a < b < |order| ==> Before(options, order[a], order[b])
  }

  /** `after` is what an option becomes: run if it was due, and otherwise untouched; and not due any more. */
  ghost predicate Settled(run: Runner, o: Opt, after: Opt) {
    (if ReadyToRun(o) then run(o) == Ok(after) else after == o) && !ReadyToRun(after)
  }

  /** When `_process` ends without an exception, it has run the callback of exactly those options that had results (or
      force their callback) and had not run it yet, each of them once, in the order of the stable sort by priority;
      it has done nothing else to any option, and a second `_process` would run none. */
  lemma RunOnceInOrder(run: Runner, options: seq<Opt>)
    requires EndsRun(run) && forall i :: 0 <= i < |options| ==> options[i].cfg.priority < PRIORITIES
    requires RunPasses(run, Ran(options, []), 0).Ok?
    ensures var r := RunPasses(run, Ran(options, []), 0).value;
      && (forall i: nat :: i in r.order <==> i < |options| && ReadyToRun(options[i]))
      && InOrder(options, r.order)
      && |r.options| == |options| && forall i :: 0 <= i < |options| ==> Settled(run, options[i], r.options[i])
  {
    var r := RunPasses(run, Ran(options, []), 0).value;
    assert Halfway(run, options, r, PRIORITIES, 0) by {
      PassesKeepHalfway(run, options, Ran(options, []), 0);
    }
    forall i | 0 <= i < |options|
      ensures Runs(options, i, PRIORITIES, 0) <==> ReadyToRun(options[i])
      ensures Settled(run, options[i], r.options[i])
    {
      assert options[i].cfg.priority < PRIORITIES;
    }
  }

  /** The same with `run_callback` itself. */
  lemma CallbacksRunOnceInOrder(options: seq<Opt>)
    requires forall i :: 0 <= i < |options| ==> options[i].cfg.priority < PRIORITIES
    requires RunPasses(RunCallback, Ran(options, []), 0).Ok?
    ensures var r := RunPasses(RunCallback, Ran(options, []), 0).value;
      && (forall i: nat :: i in r.order <==> i < |options| && ReadyToRun(options[i]))
      && InOrder(options, r.order)
      && |r.options| == |options| && forall i :: 0 <= i < |options| ==> Settled(RunCallback, options[i], r.options[i])
  {
    forall o | RunCallback(o).Ok?
      ensures RunCallback(o).value.phase == CallbackRun && RunCallback(o).value.cfg == o.cfg
    {
      RunEndsRun(o);
    }
    RunOnceInOrder(RunCallback, options);
  }
}
