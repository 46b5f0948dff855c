/** The re-entrant FFI runtime: mod code calls game code, game code runs hook callbacks of mods, and three globals
    (`currentMod`, `call_args`, and what is pending in `abort`) are shared by all of them.
    Main results: `GlobalsActAsFrames` and `DisciplineHoldsExactly`. */
module CurrentMod {
  type Mod = nat

  /** `call`/`call2` catch what the game throws; `call3` lets a C++ exception pass. */
  datatype Api = Call2 | Call3

  /** What a mod does while its own code runs, in order. An exception unwinds all of it. */
  datatype ModCode =
    | End
    | AddArg(value: int, rest: ModCode)
    | ClearArgs(rest: ModCode)
    | Refused(rest: ModCode)                          // a call whose checks fail: nothing happens
    | Call(api: Api, game: GameCode, rest: ModCode)
    | ClassInit(game: GameCode, rest: ModCode)        // `runtimeClassInit`, `runtimeObjectInit`: nothing is saved
    | Raise                                           // an exception, `exceptionRaise`
    | Abort                                           // `abort`: a `ModPanic` for the current mod

  /** What the game does while it runs: it fires hook callbacks, and may throw. `unload` is what the mod
      does in `onUnload`, in case the callback panics. */
  datatype GameCode =
    | Return
    | Throw
    | Fire(mod: Mod, args: seq<int>, body: ModCode, unload: ModCode, rest: GameCode)

  datatype Outcome = Done | Threw | Panicked(mod: Mod)

  /** One moment at which mod code runs: whose code it is, what `getCurrent()` gives, and the argument stack. */
  datatype Moment = Moment(owner: Mod, current: Mod, args: seq<int>)

  /** `currentMod` and `call_args`, with the history of moments. */
  datatype Globals = Globals(current: Mod, args: seq<int>, history: seq<Moment>)

  function Observe(owner: Mod, g: Globals): Globals {
    g.(history := g.history + [Moment(owner, g.current, g.args)])
  }

  /** Code of `owner` running on the globals. */
  function RunMod(owner: Mod, g0: Globals, code: ModCode): (Globals, Outcome)
    decreases code, 0
  {
    var g := Observe(owner, g0);
    match code
    case End => (g, Done)
    case AddArg(value, rest) => RunMod(owner, g.(args := g.args + [value]), rest)
    case ClearArgs(rest) => RunMod(owner, g.(args := []), rest)
    case Refused(rest) => RunMod(owner, g, rest)
    case Call(api, game, rest) =>
      var (after, thrown) := RunGame(g.(args := []), game);
      if thrown && api == Call3 then (after, Threw)
      else RunMod(owner, after.(current := g.current, args := []), rest)
    case ClassInit(game, rest) =>
      var (after, thrown) := RunGame(g, game);
      if thrown then (after, Threw) else RunMod(owner, after, rest)
    case Raise => (g, Threw)
    case Abort => (g, Panicked(g.current))
  }

  /** Game code running on the globals; the flag says whether it threw. */
  function RunGame(g: Globals, game: GameCode): (Globals, bool)
    decreases game, 0
  {
    match game
    case Return => (g, false)
    case Throw => (g, true)
    case Fire(mod, args, body, unload, rest) =>
      var (ran, outcome) := RunMod(mod, g.(current := mod, args := args), body);
      var after := if outcome.Panicked? then RunMod(outcome.mod, ran.(current := outcome.mod), unload).0 else ran;
      RunGame(after, rest)
  }

  /** The runtime with its globals as fields. */
  class Runtime {
    var currentMod: Mod
    var callArgs: seq<int>
    ghost var history: seq<Moment>

    ghost function Value(): Globals
      reads this
    {
      Globals(currentMod, callArgs, history)
    }

    constructor (first: Mod)
      ensures Value() == Globals(first, [], [])
    {
      currentMod, callArgs, history := first, [], [];
    }

    /** `FFIMod::simpleCall`. */
    method SimpleCall(mod: Mod, code: ModCode) returns (outcome: Outcome)
      modifies this
      ensures (Value(), outcome) == RunMod(mod, old(Value()).(current := mod), code)
      decreases code, 1
    {
      currentMod := mod;
      outcome := Execute(mod, code);
    }

    /** The mod's own code. */
    method Execute(owner: Mod, code: ModCode) returns (outcome: Outcome)
      modifies this
      ensures (Value(), outcome) == RunMod(owner, old(Value()), code)
      decreases code, 0
    {
      history := history + [Moment(owner, currentMod, callArgs)];
      match code {
        case End => outcome := Done;
        case AddArg(value, rest) =>
          callArgs := callArgs + [value];
          outcome := Execute(owner, rest);
        case ClearArgs(rest) =>
          callArgs := [];
          outcome := Execute(owner, rest);
        case Refused(rest) =>
          outcome := Execute(owner, rest);
        case Call(api, game, rest) =>
          var thrown := CallGame(api, game);
          if thrown {
            return Threw;
          }
          outcome := Execute(owner, rest);
        case ClassInit(game, rest) =>
          var thrown := Game(game);
          if thrown {
            return Threw;
          }
          outcome := Execute(owner, rest);
        case Raise => outcome := Threw;
        case Abort => outcome := Panicked(currentMod);
      }
    }

    /** `call2` and `call3` once their checks have passed. */
    method CallGame(api: Api, game: GameCode) returns (thrown: bool)
      modifies this
      ensures var ran := RunGame(old(Value()).(args := []), game);
        && thrown == (ran.1 && api == Call3)
        && Value() == if thrown then ran.0 else ran.0.(current := old(currentMod), args := [])
      decreases game, 2
    {
      var currentModBackup := currentMod;
      callArgs := [];
      thrown := Game(game);
      if thrown && api == Call3 {
        return;
      }
      thrown := false;
      currentMod := currentModBackup;
      callArgs := [];
    }

    method Game(game: GameCode) returns (thrown: bool)
      modifies this
      ensures (Value(), thrown) == RunGame(old(Value()), game)
      decreases game, 1
    {
      match game {
        case Return => thrown := false;
        case Throw => thrown := true;
        case Fire(mod, args, body, unload, rest) =>
          FfiHook(game);
          thrown := Game(rest);
      }
    }

    /** `ffiHook`: it sets the arguments and catches everything, but leaves `currentMod` as the callback left it. */
    method FfiHook(fired: GameCode)
      requires fired.Fire?
      modifies this
      ensures var ran := RunMod(fired.mod, old(Value()).(current := fired.mod, args := fired.args), fired.body);
        Value() == if ran.1.Panicked? then RunMod(ran.1.mod, ran.0.(current := ran.1.mod), fired.unload).0 else ran.0
      decreases fired, 0
    {
      callArgs := fired.args;
      var outcome := SimpleCall(fired.mod, fired.body);
      if outcome.Panicked? {
        var ignored := SimpleCall(outcome.mod, fired.unload);
      }
    }
  }

  // ----- mod code that only uses `call`, `call2` and `call3` -----

  predicate GuardedMod(code: ModCode) {
    match code
    case End => true
    case AddArg(_, rest) => GuardedMod(rest)
    case ClearArgs(rest) => GuardedMod(rest)
    case Refused(rest) => GuardedMod(rest)
    case Call(_, game, rest) => GuardedGame(game) && GuardedMod(rest)
    case ClassInit(_, _) => false
    case Raise => true
    case Abort => true
  }

  predicate GuardedGame(game: GameCode) {
    match game
    case Return => true
    case Throw => true
    case Fire(_, _, body, unload, rest) => GuardedMod(body) && GuardedMod(unload) && GuardedGame(rest)
  }

  /** The reading a mod author expects: each piece of mod code has its own identity and its own argument stack, which
      a call empties; nothing is shared. Gives the stack at the end, the history and the outcome. */
  function FrameMod(owner: Mod, args: seq<int>, h0: seq<Moment>, code: ModCode): (seq<int>, seq<Moment>, Outcome)
    requires GuardedMod(code)
    decreases code
  {
    var h := h0 + [Moment(owner, owner, args)];
    match code
    case End => (args, h, Done)
    case AddArg(value, rest) => FrameMod(owner, args + [value], h, rest)
    case ClearArgs(rest) => FrameMod(owner, [], h, rest)
    case Refused(rest) => FrameMod(owner, args, h, rest)
    case Call(api, game, rest) =>
      var (after, thrown) := FrameGame(h, game);
      if thrown && api == Call3 then ([], after, Threw) else FrameMod(owner, [], after, rest)
    case Raise => ([], h, Threw)
    case Abort => (args, h, Panicked(owner))
  }

  function FrameGame(h: seq<Moment>, game: GameCode): (seq<Moment>, bool)
    requires GuardedGame(game)
    decreases game
  {
    match game
    case Return => (h, false)
    case Throw => (h, true)
    case Fire(mod, args, body, unload, rest) =>
      var (left, after, outcome) := FrameMod(mod, args, h, body);
      FrameGame(if outcome.Panicked? then FrameMod(mod, left, after, unload).1 else after, rest)
  }

  lemma {:induction false} ModActsAsFrame(owner: Mod, g: Globals, code: ModCode)
    requires GuardedMod(code) && g.current == owner
    ensures var (r, outcome) := RunMod(owner, g, code);
      var (args, history, expected) := FrameMod(owner, g.args, g.history, code);
      && r.history == history && outcome == expected
      && (outcome.Panicked? ==> outcome.mod == owner)
      && (!outcome.Threw? ==> r.args == args && r.current == owner)
    decreases code
  {
    var o := Observe(owner, g);
    match code {
      case End =>
      case AddArg(value, rest) => ModActsAsFrame(owner, o.(args := o.args + [value]), rest);
      case ClearArgs(rest) => ModActsAsFrame(owner, o.(args := []), rest);
      case Refused(rest) => ModActsAsFrame(owner, o, rest);
      case Call(api, game, rest) =>
        GameActsAsFrames(o.(args := []), game);
        var after := RunGame(o.(args := []), game).0;
        ModActsAsFrame(owner, after.(current := owner, args := []), rest);
      case Raise =>
      case Abort =>
    }
  }

  lemma {:induction false} GameActsAsFrames(g: Globals, game: GameCode)
    requires GuardedGame(game)
    ensures var (r, thrown) := RunGame(g, game); (r.history, thrown) == FrameGame(g.history, game)
    decreases game
  {
    if game.Fire? {
      var entered := g.(current := game.mod, args := game.args);
      ModActsAsFrame(game.mod, entered, game.body);
      var (ran, outcome) := RunMod(game.mod, entered, game.body);
      var after := ran;
      if outcome.Panicked? {
        ModActsAsFrame(game.mod, ran, game.unload);
        after := RunMod(game.mod, ran, game.unload).0;
        assert ran.(current := outcome.mod) == ran;
      }
      GameActsAsFrames(after, game.rest);
    }
  }

  /** At every moment `getCurrent()` is the mod whose code runs. */
  predicate Right(history: seq<Moment>) {
    forall i :: 0 <= i < |history| ==> history[i].owner == history[i].current
  }

  lemma {:induction false} FramesAreRight(owner: Mod, args: seq<int>, h: seq<Moment>, code: ModCode)
    requires GuardedMod(code) && Right(h)
    ensures Right(FrameMod(owner, args, h, code).1)
    decreases code
  {
    var o := h + [Moment(owner, owner, args)];
    match code {
      case AddArg(value, rest) => FramesAreRight(owner, args + [value], o, rest);
      case ClearArgs(rest) => FramesAreRight(owner, [], o, rest);
      case Refused(rest) => FramesAreRight(owner, args, o, rest);
      case Call(api, game, rest) =>
        GameFramesAreRight(o, game);
        FramesAreRight(owner, [], FrameGame(o, game).0, rest);
      case _ =>
    }
  }

  lemma {:induction false} GameFramesAreRight(h: seq<Moment>, game: GameCode)
    requires GuardedGame(game) && Right(h)
    ensures Right(FrameGame(h, game).0)
    decreases game
  {
    if game.Fire? {
      FramesAreRight(game.mod, game.args, h, game.body);
      var (left, after, outcome) := FrameMod(game.mod, game.args, h, game.body);
      FramesAreRight(game.mod, left, after, game.unload);
      var unloaded := if outcome.Panicked? then FrameMod(game.mod, left, after, game.unload).1 else after;
      GameFramesAreRight(unloaded, game.rest);
    }
  }

  /** Current-mod discipline: a host call into a mod, with any tree of nested calls, hooks, exceptions and panics below
      it, behaves as if nothing were shared; so `getCurrent()` is right at every moment, every call passes exactly
      what its own mod put on the stack, and a mod that aborts is the one that is unloaded. */
  lemma GlobalsActAsFrames(owner: Mod, g: Globals, code: ModCode)
    requires GuardedMod(code) && Right(g.history)
    ensures var (r, outcome) := RunMod(owner, g.(current := owner), code);
      var (args, history, expected) := FrameMod(owner, g.args, g.history, code);
      && r.history == history && outcome == expected && Right(r.history)
      && (outcome.Panicked? ==> outcome.mod == owner)
  {
    ModActsAsFrame(owner, g.(current := owner), code);
    FramesAreRight(owner, g.args, g.history, code);
  }

  // ----- mod code that also runs class initialisers -----

  /** Whether game code ends by throwing; hooks never make it do so. */
  predicate GameThrows(game: GameCode) {
    match game
    case Return => false
    case Throw => true
    case Fire(_, _, _, _, rest) => GameThrows(rest)
  }

  predicate Aborts(code: ModCode) {
    match code
    case End => false
    case AddArg(_, rest) => Aborts(rest)
    case ClearArgs(rest) => Aborts(rest)
    case Refused(rest) => Aborts(rest)
    case Call(api, game, rest) => !(GameThrows(game) && api == Call3) && Aborts(rest)
    case ClassInit(game, rest) => !GameThrows(game) && Aborts(rest)
    case Raise => false
    case Abort => true
  }

  /** The mod that stays current after mod code of `owner`, if all went right: another one only if an exception from
      game code cut it short. */
  function StaysMod(owner: Mod, code: ModCode): Mod
    decreases code
  {
    match code
    case End => owner
    case AddArg(_, rest) => StaysMod(owner, rest)
    case ClearArgs(rest) => StaysMod(owner, rest)
    case Refused(rest) => StaysMod(owner, rest)
    case Call(api, game, rest) =>
      if GameThrows(game) && api == Call3 then StaysGame(owner, game) else StaysMod(owner, rest)
    case ClassInit(game, rest) => if GameThrows(game) then StaysGame(owner, game) else StaysMod(owner, rest)
    case Raise => owner
    case Abort => owner
  }

  /** The mod that stays current after game code: that of the last hook it fired itself, if any, unless an exception
      from game code cut that hook short; then it is the one that the throwing game code left behind. */
  function StaysGame(current: Mod, game: GameCode): Mod
    decreases game
  {
    match game
    case Return => current
    case Throw => current
    case Fire(mod, _, body, unload, rest) =>
      StaysGame(if Aborts(body) then StaysMod(mod, unload) else StaysMod(mod, body), rest)
  }

  /** No initialiser that returns to a mod leaves another mod current. */
  predicate TameMod(owner: Mod, code: ModCode)
    decreases code
  {
    match code
    case End => true
    case AddArg(_, rest) => TameMod(owner, rest)
    case ClearArgs(rest) => TameMod(owner, rest)
    case Refused(rest) => TameMod(owner, rest)
    case Call(api, game, rest) => TameGame(game) && ((GameThrows(game) && api == Call3) || TameMod(owner, rest))
    case ClassInit(game, rest) =>
      TameGame(game) && (GameThrows(game) || (StaysGame(owner, game) == owner && TameMod(owner, rest)))
    case Raise => true
    case Abort => true
  }

  predicate TameGame(game: GameCode)
    decreases game
  {
    match game
    case Return => true
    case Throw => true
    case Fire(mod, _, body, unload, rest) =>
      TameMod(mod, body) && (Aborts(body) ==> TameMod(mod, unload)) && TameGame(rest)
  }

  lemma {:induction false} ModHistoryGrows(owner: Mod, g: Globals, code: ModCode)
    ensures g.history + [Moment(owner, g.current, g.args)] <= RunMod(owner, g, code).0.history
    ensures RunMod(owner, g, code).1.Panicked? <==> Aborts(code)
    decreases code
  {
    var o := Observe(owner, g);
    match code {
      case AddArg(value, rest) => ModHistoryGrows(owner, o.(args := o.args + [value]), rest);
      case ClearArgs(rest) => ModHistoryGrows(owner, o.(args := []), rest);
      case Refused(rest) => ModHistoryGrows(owner, o, rest);
      case Call(api, game, rest) =>
        GameHistoryGrows(o.(args := []), game);
        ModHistoryGrows(owner, RunGame(o.(args := []), game).0.(current := o.current, args := []), rest);
      case ClassInit(game, rest) =>
        GameHistoryGrows(o, game);
        ModHistoryGrows(owner, RunGame(o, game).0, rest);
      case _ =>
    }
  }

  lemma {:induction false} GameHistoryGrows(g: Globals, game: GameCode)
    ensures g.history <= RunGame(g, game).0.history
    ensures RunGame(g, game).1 <==> GameThrows(game)
    decreases game
  {
    if game.Fire? {
      var entered := g.(current := game.mod, args := game.args);
      ModHistoryGrows(game.mod, entered, game.body);
      var (ran, outcome) := RunMod(game.mod, entered, game.body);
      var after := ran;
      if outcome.Panicked? {
        ModHistoryGrows(outcome.mod, ran.(current := outcome.mod), game.unload);
        after := RunMod(outcome.mod, ran.(current := outcome.mod), game.unload).0;
      }
      GameHistoryGrows(after, game.rest);
    }
  }

  /** A wrong moment stays in the history. */
  lemma WrongStays(a: seq<Moment>, b: seq<Moment>)
    requires a <= b && Right(b)
    ensures Right(a)
  {
  }

  lemma {:induction false} ModRightExactly(owner: Mod, g: Globals, code: ModCode)
    requires g.current == owner && Right(g.history)
    ensures var (r, outcome) := RunMod(owner, g, code);
      && (Right(r.history) <==> TameMod(owner, code))
      && (TameMod(owner, code) ==> r.current == StaysMod(owner, code) && (outcome.Panicked? ==> outcome.mod == owner))
    decreases code
  {
    var o := Observe(owner, g);
    match code {
      case AddArg(value, rest) => ModRightExactly(owner, o.(args := o.args + [value]), rest);
      case ClearArgs(rest) => ModRightExactly(owner, o.(args := []), rest);
      case Refused(rest) => ModRightExactly(owner, o, rest);
      case Call(api, game, rest) =>
        var entered := o.(args := []);
        GameRightExactly(entered, game);
        GameHistoryGrows(entered, game);
        var after := RunGame(entered, game).0.(current := owner, args := []);
        if TameGame(game) {
          ModRightExactly(owner, after, rest);
        } else {
          ModHistoryGrows(owner, after, rest);
          if Right(RunMod(owner, g, code).0.history) {
            WrongStays(after.history, RunMod(owner, g, code).0.history);
          }
        }
      case ClassInit(game, rest) =>
        GameRightExactly(o, game);
        GameHistoryGrows(o, game);
        var after := RunGame(o, game).0;
        if TameGame(game) && after.current == owner {
          ModRightExactly(owner, after, rest);
        } else {
          ModHistoryGrows(owner, after, rest);
          var seen := after.history + [Moment(owner, after.current, after.args)];
          assert seen[|after.history|] == Moment(owner, after.current, after.args);
          if Right(RunMod(owner, g, code).0.history) && !GameThrows(game) {
            WrongStays(seen, RunMod(owner, g, code).0.history);
            WrongStays(after.history, seen);
          }
        }
      case _ =>
    }
  }

  lemma {:induction false} GameRightExactly(g: Globals, game: GameCode)
    requires Right(g.history)
    ensures var (r, thrown) := RunGame(g, game);
      && (Right(r.history) <==> TameGame(game))
      && (TameGame(game) ==> r.current == StaysGame(g.current, game))
    decreases game
  {
    if game.Fire? {
      var entered := g.(current := game.mod, args := game.args);
      var (ran, outcome) := RunMod(game.mod, entered, game.body);
      ModRightExactly(game.mod, entered, game.body);
      ModHistoryGrows(game.mod, entered, game.body);
      var after := ran;
      if outcome.Panicked? {
        after := RunMod(outcome.mod, ran.(current := outcome.mod), game.unload).0;
        ModHistoryGrows(outcome.mod, ran.(current := outcome.mod), game.unload);
        if TameMod(game.mod, game.body) {
          ModRightExactly(game.mod, ran.(current := game.mod), game.unload);
        }
      }
      GameHistoryGrows(after, game.rest);
      if Right(after.history) {
        GameRightExactly(after, game.rest);
        WrongStays(ran.history, after.history);
      } else if Right(RunGame(g, game).0.history) {
        WrongStays(after.history, RunGame(g, game).0.history);
      }
    }
  }

  /** With `runtimeClassInit` and `runtimeObjectInit` in play, the discipline holds exactly when no initialiser that
      returns to a mod leaves another mod current. One that fired no hook of its own leaves the mod as it was, and
      otherwise it is the last such hook that counts: it leaves its own mod current, unless an exception from game code
      went through the hook's body; `LastHookStays` and `UncutDiscipline` say so. */
  lemma DisciplineHoldsExactly(owner: Mod, g: Globals, code: ModCode)
    requires Right(g.history)
    ensures Right(RunMod(owner, g.(current := owner), code).0.history) <==> TameMod(owner, code)
  {
    ModRightExactly(owner, g.(current := owner), code);
  }

  /** An exception from game code ends this mod code early, through `call3` or an initialiser. */
  predicate CutShort(code: ModCode) {
    match code
    case End => false
    case AddArg(_, rest) => CutShort(rest)
    case ClearArgs(rest) => CutShort(rest)
    case Refused(rest) => CutShort(rest)
    case Call(api, game, rest) => (GameThrows(game) && api == Call3) || CutShort(rest)
    case ClassInit(game, rest) => GameThrows(game) || CutShort(rest)
    case Raise => false
    case Abort => false
  }

  /** No hook that the game code fires itself is cut short. */
  predicate HooksEnd(game: GameCode) {
    match game
    case Return => true
    case Throw => true
    case Fire(_, _, body, unload, rest) => !CutShort(if Aborts(body) then unload else body) && HooksEnd(rest)
  }

  /** The mod of the last hook that the game code fires itself; hooks below those hooks do not matter. */
  function LastHook(current: Mod, game: GameCode): Mod
    decreases game
  {
    match game
    case Return => current
    case Throw => current
    case Fire(mod, _, _, _, rest) => LastHook(mod, rest)
  }

  lemma {:induction false} OwnerStays(owner: Mod, code: ModCode)
    requires !CutShort(code)
    ensures StaysMod(owner, code) == owner
    decreases code
  {
    match code {
      case AddArg(_, rest) => OwnerStays(owner, rest);
      case ClearArgs(rest) => OwnerStays(owner, rest);
      case Refused(rest) => OwnerStays(owner, rest);
      case Call(_, _, rest) => OwnerStays(owner, rest);
      case ClassInit(_, rest) => OwnerStays(owner, rest);
      case _ =>
    }
  }

  /** Without exceptions through hook bodies, the mod that stays current is that of the last hook. */
  lemma {:induction false} LastHookStays(current: Mod, game: GameCode)
    requires HooksEnd(game)
    ensures StaysGame(current, game) == LastHook(current, game)
    decreases game
  {
    if game.Fire? {
      OwnerStays(game.mod, if Aborts(game.body) then game.unload else game.body);
      LastHookStays(game.mod, game.rest);
    }
  }

  /** No hook anywhere in the tree is cut short. */
  predicate UncutMod(code: ModCode) {
    match code
    case End => true
    case AddArg(_, rest) => UncutMod(rest)
    case ClearArgs(rest) => UncutMod(rest)
    case Refused(rest) => UncutMod(rest)
    case Call(_, game, rest) => UncutGame(game) && UncutMod(rest)
    case ClassInit(game, rest) => UncutGame(game) && UncutMod(rest)
    case Raise => true
    case Abort => true
  }

  predicate UncutGame(game: GameCode) {
    match game
    case Return => true
    case Throw => true
    case Fire(_, _, body, unload, rest) =>
      !CutShort(body) && !CutShort(unload) && UncutMod(body) && UncutMod(unload) && UncutGame(rest)
  }

  /** Every initialiser that returns to a mod fired no hook itself, or fired a hook of that mod last. */
  predicate OwnHooksLast(owner: Mod, code: ModCode)
    decreases code
  {
    match code
    case End => true
    case AddArg(_, rest) => OwnHooksLast(owner, rest)
    case ClearArgs(rest) => OwnHooksLast(owner, rest)
    case Refused(rest) => OwnHooksLast(owner, rest)
    case Call(api, game, rest) =>
      OwnHooksLastGame(game) && ((GameThrows(game) && api == Call3) || OwnHooksLast(owner, rest))
    case ClassInit(game, rest) =>
      OwnHooksLastGame(game) && (GameThrows(game) || (LastHook(owner, game) == owner && OwnHooksLast(owner, rest)))
    case Raise => true
    case Abort => true
  }

  predicate OwnHooksLastGame(game: GameCode)
    decreases game
  {
    match game
    case Return => true
    case Throw => true
    case Fire(mod, _, body, unload, rest) =>
      OwnHooksLast(mod, body) && (Aborts(body) ==> OwnHooksLast(mod, unload)) && OwnHooksLastGame(rest)
  }

  lemma {:induction false} UncutHooksEnd(game: GameCode)
    requires UncutGame(game)
    ensures HooksEnd(game)
  {
    if game.Fire? {
      UncutHooksEnd(game.rest);
    }
  }

  lemma {:induction false} UncutTame(owner: Mod, code: ModCode)
    requires UncutMod(code)
    ensures TameMod(owner, code) <==> OwnHooksLast(owner, code)
    decreases code
  {
    match code {
      case AddArg(_, rest) => UncutTame(owner, rest);
      case ClearArgs(rest) => UncutTame(owner, rest);
      case Refused(rest) => UncutTame(owner, rest);
      case Call(_, game, rest) =>
        UncutTameGame(game);
        UncutTame(owner, rest);
      case ClassInit(game, rest) =>
        UncutTameGame(game);
        UncutHooksEnd(game);
        LastHookStays(owner, game);
        UncutTame(owner, rest);
      case _ =>
    }
  }

  lemma {:induction false} UncutTameGame(game: GameCode)
    requires UncutGame(game)
    ensures TameGame(game) <==> OwnHooksLastGame(game)
    decreases game
  {
    if game.Fire? {
      UncutTame(game.mod, game.body);
      UncutTame(game.mod, game.unload);
      UncutTameGame(game.rest);
    }
  }

  /** When no exception from game code goes through a hook's body, the discipline holds if and only if every initialiser
      that returns to a mod fired no hook itself, or fired a hook of that mod last. */
  lemma UncutDiscipline(owner: Mod, g: Globals, code: ModCode)
    requires Right(g.history) && UncutMod(code)
    ensures Right(RunMod(owner, g.(current := owner), code).0.history) <==> OwnHooksLast(owner, code)
  {
    DisciplineHoldsExactly(owner, g, code);
    UncutTame(owner, code);
  }

  /** An exception through a hook's body does matter: the only hook that this initialiser fires is of its own mod, yet
      the mod whose hook threw through it stays current. */
  lemma ExceptionBreaksDiscipline()
    ensures var thrower := Fire(2, [], End, End, Throw);
      var game := Fire(1, [], Call(Call3, thrower, End), End, Return);
      && LastHook(1, game) == 1 && !HooksEnd(game)
      && !Right(RunMod(1, Globals(1, [], []), ClassInit(game, End)).0.history)
  {
    var thrower := Fire(2, [], End, End, Throw);
    var body := Call(Call3, thrower, End);
    var game := Fire(1, [], body, End, Return);
    assert StaysGame(1, thrower) == 2;
    assert StaysMod(1, body) == 2;
    assert StaysGame(1, game) == 2;
    ModRightExactly(1, Globals(1, [], []), ClassInit(game, End));
  }

  /** The smallest failure: a class initialiser fires a hook of another mod. */
  lemma ClassInitBreaksDiscipline()
    ensures !Right(RunMod(1, Globals(1, [], []), ClassInit(Fire(2, [], End, End, Return), End)).0.history)
  {
    var game := Fire(2, [], End, End, Return);
    assert StaysGame(1, game) == 2;
    ModRightExactly(1, Globals(1, [], []), ClassInit(game, End));
  }
}
