/** Code patching: a hook overwrites 14 bytes of code with a jump, keeps the bytes it replaced, may be moved,
    and is lifted for a while by `GameHookRelease` scopes. Main result: `CodeIsNeverLost`. */
module GameHooks {
  newtype byte = x: int | 0 <= x < 256

  /** `original_len`. */
  const SIZE := 14

  /** What fits into a pointer. */
  const POINTERS := 0x1_0000_0000_0000_0000

  function PointerBytes(p: nat, n: nat): (bs: seq<byte>)
    ensures |bs| == n
  {
    if n == 0 then [] else [(p % 256) as byte] + PointerBytes(p / 256, n - 1)
  }

  function BytesPointer(bs: seq<byte>): nat {
    if bs == [] then 0 else bs[0] as int + 256 * BytesPointer(bs[1..])
  }

  function Pow256(n: nat): nat {
    if n == 0 then 1 else 256 * Pow256(n - 1)
  }

  lemma {:induction false} PointerRoundTrip(p: nat, n: nat)
    requires p < Pow256(n)
    ensures BytesPointer(PointerBytes(p, n)) == p
  {
    if n > 0 {
      PointerRoundTrip(p / 256, n - 1);
    }
  }

  /** The six instruction bytes of the first-stage trampoline: an indirect call or jump through the next eight bytes. */
  function Instructions(second: bool): (bs: seq<byte>)
    ensures |bs| == SIZE - 8
  {
    [0xff, if second then 0x15 else 0x25, 0, 0, 0, 0]
  }

  function Trampoline(second: bool, dest: nat): (bs: seq<byte>)
    ensures |bs| == SIZE
  {
    Instructions(second) + PointerBytes(dest, 8)
  }

  predicate Mapped(mem: seq<byte>, fnc: nat) {
    fnc + SIZE <= |mem|
  }

  function Window(mem: seq<byte>, fnc: nat): (bs: seq<byte>)
    requires Mapped(mem, fnc)
    ensures |bs| == SIZE
  {
    mem[fnc..fnc + SIZE]
  }

  /** `getHookAt`: where the trampoline at `fnc` leads, or null. */
  function HookAt(mem: seq<byte>, fnc: nat): nat
    requires Mapped(mem, fnc)
  {
    var buf := mem[fnc..fnc + SIZE - 8];
    if buf == Instructions(false) || buf == Instructions(true) then
      BytesPointer(mem[fnc + SIZE - 8..fnc + SIZE])
    else 0
  }

  /** Memory after writing `bs` at `at`. */
  function Patch(mem: seq<byte>, at: nat, bs: seq<byte>): (r: seq<byte>)
    requires at + |bs| <= |mem|
    ensures |r| == |mem|
    ensures forall i :: 0 <= i < |mem| ==> r[i] == if at <= i < at + |bs| then bs[i - at] else mem[i]
  {
    mem[..at] + bs + mem[at + |bs|..]
  }

  /** The fields of a `GameHook`. */
  datatype Hook = Hook(fnc: nat, dest: nat, second: bool, original: seq<byte>, released: bool)

  predicate ValidHook(mem: seq<byte>, h: Hook) {
    Mapped(mem, h.fnc) && 0 < h.dest < POINTERS && |h.original| == SIZE
  }

  // ----- the effect of each operation, on values -----

  function ReleaseMem(mem: seq<byte>, h: Hook): seq<byte>
    requires ValidHook(mem, h)
  {
    Patch(mem, h.fnc, h.original)
  }

  function RestoreMem(mem: seq<byte>, h: Hook): seq<byte>
    requires ValidHook(mem, h)
  {
    Patch(mem, h.fnc, Trampoline(h.second, h.dest))
  }

  function NewHook(mem: seq<byte>, fnc: nat, dest: nat, second: bool): Hook
    requires Mapped(mem, fnc)
  {
    Hook(fnc, dest, second, Window(mem, fnc), false)
  }

  /** Memory after the destructor. */
  function DestroyMem(mem: seq<byte>, h: Hook): seq<byte>
    requires ValidHook(mem, h)
  {
    if h.released then mem else ReleaseMem(mem, h)
  }

  // ----- the classes -----

  /** `WriteProcessMemory`, which is taken to succeed. */
  method WriteProcessMemory(mem: array<byte>, at: nat, bs: seq<byte>)
    requires at + |bs| <= mem.Length
    modifies mem
    ensures mem[..] == Patch(old(mem[..]), at, bs)
  {
    forall i | 0 <= i < |bs| {
      mem[at + i] := bs[i];
    }
    assert |mem[..]| == |Patch(old(mem[..]), at, bs)|;
  }

  class GameHook {
    /** The memory of the process. */
    const mem: array<byte>
    const fnc: nat
    const hook: nat
    const use2NdTrampoline: bool
    var original: seq<byte>
    var released: bool

    function Value(): Hook
      reads this
    {
      Hook(fnc, hook, use2NdTrampoline, original, released)
    }

    predicate Valid()
      reads this, mem
    {
      ValidHook(mem[..], Value())
    }

    constructor (mem: array<byte>, fnc: nat, hook: nat, useTrampoline: bool)
      requires fnc + SIZE <= mem.Length && 0 < hook < POINTERS
      modifies mem
      ensures Valid() && this.mem == mem
      ensures Value() == NewHook(old(mem[..]), fnc, hook, useTrampoline)
      ensures mem[..] == RestoreMem(old(mem[..]), Value())
    {
      this.mem, this.fnc, this.hook, this.use2NdTrampoline := mem, fnc, hook, useTrampoline;
      original := mem[fnc..fnc + SIZE];
      released := true;
      new;
      assert mem[..][fnc..fnc + SIZE] == mem[fnc..fnc + SIZE];
      var ok := Restore();
    }

    /** The move constructor: the new object takes over, and the old one counts as released. */
    constructor Move(o: GameHook)
      requires o.Valid()
      modifies o`released
      ensures Valid() && mem == o.mem && Value() == old(o.Value())
      ensures o.Value() == old(o.Value()).(released := true)
    {
      mem, fnc, hook, use2NdTrampoline := o.mem, o.fnc, o.hook, o.use2NdTrampoline;
      original, released := o.original, o.released;
      new;
      o.released := true;
    }

    method Release() returns (ok: bool)
      requires Valid()
      modifies mem, `released
      ensures Valid() && ok
      ensures mem[..] == ReleaseMem(old(mem[..]), old(Value()))
      ensures Value() == old(Value()).(released := true)
    {
      WriteProcessMemory(mem, fnc, original);
      released := true;
      ok := true;
    }

    method Restore() returns (ok: bool)
      requires Valid()
      modifies mem, `released
      ensures Valid() && ok
      ensures mem[..] == RestoreMem(old(mem[..]), old(Value()))
      ensures Value() == old(Value()).(released := false)
    {
      var buf := Instructions(use2NdTrampoline) + PointerBytes(hook, 8);
      WriteProcessMemory(mem, fnc, buf);
      released := false;
      ok := true;
    }

    /** The destructor. */
    method Destroy()
      requires Valid()
      modifies mem, `released
      ensures mem[..] == DestroyMem(old(mem[..]), old(Value()))
    {
      if !released {
        var ok := Release();
      }
    }

    static method GetHookAt(mem: array<byte>, fnc: nat) returns (dest: nat)
      requires fnc + SIZE <= mem.Length
      ensures dest == HookAt(mem[..], fnc)
    {
      var buf := mem[fnc..fnc + SIZE - 8];
      assert mem[..][fnc..fnc + SIZE - 8] == buf;
      assert mem[..][fnc + SIZE - 8..fnc + SIZE] == mem[fnc + SIZE - 8..fnc + SIZE];
      var second := false;
      while true
        invariant second ==> buf != Instructions(false)
        decreases !second
      {
        if Instructions(second) == buf {
          return BytesPointer(mem[fnc + SIZE - 8..fnc + SIZE]);
        }
        if second {
          break;
        }
        second := true;
      }
      return 0;
    }

    /** `safeCreate` into an optional that may still hold a hook, which is destroyed first. */
    static method SafeCreate(existing: GameHook?, mem: array<byte>, fnc: nat, hook: nat, useTrampoline: bool)
      returns (fres: GameHook?)
      requires fnc + SIZE <= mem.Length && 0 < hook < POINTERS
      requires existing != null ==> existing.Valid() && existing.mem == mem
      modifies mem, if existing != null then {existing} else {}
      ensures var before := if existing != null then DestroyMem(old(mem[..]), old(existing.Value())) else old(mem[..]);
        if HookAt(before, fnc) != 0 then fres == null && mem[..] == before
        else
          && fres != null && fresh(fres) && fres.Valid() && fres.mem == mem
          && fres.Value() == NewHook(before, fnc, hook, useTrampoline)
          && mem[..] == RestoreMem(before, fres.Value())
    {
      if existing != null {
        existing.Destroy();
      }
      var there := GetHookAt(mem, fnc);
      if there != 0 {
        return null;
      }
      var maybeFres := new GameHook(mem, fnc, hook, useTrampoline);
      fres := new GameHook.Move(maybeFres);
      maybeFres.Destroy();
    }
  }

  /** The scope guard that lifts a hook. */
  class GameHookRelease {
    const hook: GameHook
    var active: bool

    constructor (hook: GameHook)
      requires hook.Valid()
      modifies hook.mem, hook`released
      ensures this.hook == hook && hook.Valid()
      ensures active == !old(hook.released)
      ensures hook.mem[..] == DestroyMem(old(hook.mem[..]), old(hook.Value()))
      ensures hook.Value() == old(hook.Value()).(released := true)
    {
      this.hook := hook;
      active := false;
      new;
      if !hook.released {
        var ok := hook.Release();
        active := hook.released;
      }
    }

    /** The destructor. */
    method End()
      requires hook.Valid()
      modifies hook.mem, hook`released
      ensures hook.Valid()
      ensures hook.mem[..] == if active then RestoreMem(old(hook.mem[..]), old(hook.Value())) else old(hook.mem[..])
      ensures hook.Value() == if active then old(hook.Value()).(released := false) else old(hook.Value())
    {
      if active {
        var ok := hook.Restore();
      }
    }
  }

  /** A pool of hooks, at most one for each address. A removed hook lives on while it is shared, so removing
      does not destroy it here. */
  class GameHookPool {
    const mem: array<byte>
    var hooks: seq<GameHook>

    ghost predicate Valid()
      reads this, hooks, mem
    {
      && (forall i :: 0 <= i < |hooks| ==> hooks[i].mem == mem && hooks[i].Valid())
      && forall i, j :: 0 <= i < j < |hooks| ==> hooks[i].fnc != hooks[j].fnc
    }

    constructor (mem: array<byte>)
      ensures Valid() && this.mem == mem && hooks == []
    {
      this.mem, hooks := mem, [];
    }

    method Get(fnc: nat) returns (hook: GameHook?)
      ensures hook != null ==> hook in hooks && hook.fnc == fnc
      ensures hook == null ==> forall i :: 0 <= i < |hooks| ==> hooks[i].fnc != fnc
    {
      for k := 0 to |hooks|
        invariant forall i :: 0 <= i < k ==> hooks[i].fnc != fnc
      {
        if hooks[k].fnc == fnc {
          return hooks[k];
        }
      }
      return null;
    }

    method Add(fnc: nat, hook: nat, useTrampoline: bool) returns (added: GameHook?)
      requires Valid() && fnc + SIZE <= mem.Length && 0 < hook < POINTERS
      modifies this, mem
      ensures Valid()
      ensures added == null
        <==> (exists i :: 0 <= i < |old(hooks)| && old(hooks)[i].fnc == fnc) || HookAt(old(mem[..]), fnc) != 0
      ensures added == null ==> hooks == old(hooks) && mem[..] == old(mem[..])
      ensures added != null ==> hooks == old(hooks) + [added] && fresh(added)
      ensures added != null ==> added.Value() == NewHook(old(mem[..]), fnc, hook, useTrampoline)
      ensures added != null ==> mem[..] == RestoreMem(old(mem[..]), added.Value())
    {
      var there := Get(fnc);
      if there != null {
        return null;
      }
      added := GameHook.SafeCreate(null, mem, fnc, hook, useTrampoline);
      if added != null {
        hooks := hooks + [added];
      }
    }

    method Remove(hook: GameHook)
      requires Valid()
      modifies `hooks
      ensures Valid() && hook !in hooks
      ensures forall h :: h in hooks <==> h in old(hooks) && h != hook
    {
      var kept: seq<GameHook> := [];
      for k := 0 to |hooks|
        invariant hooks == old(hooks)
        invariant forall h :: h in kept <==> h in hooks[..k] && h != hook
        invariant forall i :: 0 <= i < |kept| ==> kept[i].mem == mem && kept[i].Valid()
        invariant forall i, j :: 0 <= i < j < |kept| ==> kept[i].fnc != kept[j].fnc
      {
        assert hooks[..k + 1] == hooks[..k] + [hooks[k]];
        if hooks[k] != hook {
          forall i | 0 <= i < |kept| ensures kept[i].fnc != hooks[k].fnc {
            assert kept[i] in hooks[..k];
          }
          kept := kept + [hooks[k]];
        }
      }
      assert hooks[..|hooks|] == hooks;
      hooks := kept;
    }
  }

  // ----- whole runs -----

  /** A guard: the hook object it refers to, and whether it will restore it. */
  datatype Scope = Scope(hook: nat, active: bool)

  /** All hook and guard objects that exist, by object identity. */
  datatype World = World(mem: seq<byte>, hooks: map<nat, Hook>, scopes: map<nat, Scope>)

  datatype Action =
    | Create(id: nat, fnc: nat, dest: nat, second: bool)
    | Move(from: nat, to: nat)
    | Destroy(id: nat)
    | Enter(scope: nat, id: nat)
    | Leave(scope: nat)

  predicate Apart(a: nat, b: nat) {
    a == b || a + SIZE <= b || b + SIZE <= a
  }

  /** What the source asks of its callers: targets are mapped, non-overlapping code; hooks are not null; and
      references stay good, so no hook is destroyed under a guard. */
  predicate Allowed(w: World, a: Action) {
    match a
    case Create(id, fnc, dest, _) =>
      id !in w.hooks && Mapped(w.mem, fnc) && 0 < dest < POINTERS && forall k <- w.hooks :: Apart(w.hooks[k].fnc, fnc)
    case Move(from, to) => from in w.hooks && to !in w.hooks
    case Destroy(id) => id in w.hooks && forall s <- w.scopes :: w.scopes[s].hook != id
    case Enter(scope, id) => scope !in w.scopes && id in w.hooks
    case Leave(scope) => scope in w.scopes && w.scopes[scope].hook in w.hooks
  }

  predicate ValidWorld(w: World) {
    forall k <- w.hooks :: ValidHook(w.mem, w.hooks[k])
  }

  function Step(w: World, a: Action): (r: World)
    requires ValidWorld(w) && Allowed(w, a)
    ensures ValidWorld(r) && |r.mem| == |w.mem|
  {
    match a
    case Create(id, fnc, dest, second) =>
      if HookAt(w.mem, fnc) != 0 then w
      else
        var h := NewHook(w.mem, fnc, dest, second);
        World(RestoreMem(w.mem, h), w.hooks[id := h], w.scopes)
    case Move(from, to) =>
      var h := w.hooks[from];
      w.(hooks := w.hooks[from := h.(released := true)][to := h])
    case Destroy(id) =>
      World(DestroyMem(w.mem, w.hooks[id]), w.hooks - {id}, w.scopes)
    case Enter(scope, id) =>
      var h := w.hooks[id];
      World(DestroyMem(w.mem, h), w.hooks[id := h.(released := true)], w.scopes[scope := Scope(id, !h.released)])
    case Leave(scope) =>
      var s := w.scopes[scope];
      if s.active then
        var h := w.hooks[s.hook];
        World(RestoreMem(w.mem, h), w.hooks[s.hook := h.(released := false)], w.scopes - {scope})
      else w.(scopes := w.scopes - {scope})
  }

  /** A live hook that is not released covers address `i`. */
  ghost predicate Covered(w: World, i: nat) {
    exists k :: k in w.hooks && !w.hooks[k].released && w.hooks[k].fnc <= i < w.hooks[k].fnc + SIZE
  }

  predicate IsTrampoline(bs: seq<byte>) {
    exists second, dest :: 0 < dest < POINTERS && bs == Trampoline(second, dest)
  }

  /** What every run keeps, for the code `pristine` that was there before any hook. */
  ghost predicate Invariant(w: World, pristine: seq<byte>) {
    && |w.mem| == |pristine| && ValidWorld(w)
    && (forall k <- w.hooks :: w.hooks[k].original == Window(pristine, w.hooks[k].fnc))
    && (forall j, k :: j in w.hooks && k in w.hooks ==> Apart(w.hooks[j].fnc, w.hooks[k].fnc))
    && (forall k <- w.hooks :: PristineOrHooked(w.mem, pristine, w.hooks[k].fnc))
    && forall i :: 0 <= i < |w.mem| && w.mem[i] != pristine[i] ==> Covered(w, i)
  }

  ghost predicate PristineOrHooked(mem: seq<byte>, pristine: seq<byte>, fnc: nat)
    requires |mem| == |pristine| && Mapped(mem, fnc)
  {
    Window(mem, fnc) == Window(pristine, fnc) || IsTrampoline(Window(mem, fnc))
  }

  /** `getHookAt` finds every trampoline that leads somewhere. */
  lemma TrampolineIsFound(mem: seq<byte>, fnc: nat)
    requires Mapped(mem, fnc) && IsTrampoline(Window(mem, fnc))
    ensures HookAt(mem, fnc) != 0
    ensures forall second, dest ::
      0 < dest < POINTERS && Window(mem, fnc) == Trampoline(second, dest) ==> HookAt(mem, fnc) == dest
  {
    assert Pow256(8) == POINTERS;
    var w := Window(mem, fnc);
    assert w[..SIZE - 8] == mem[fnc..fnc + SIZE - 8] && w[SIZE - 8..] == mem[fnc + SIZE - 8..fnc + SIZE];
    forall second, dest | 0 < dest < POINTERS && w == Trampoline(second, dest)
      ensures HookAt(mem, fnc) == dest
    {
      var t := Trampoline(second, dest);
      assert t[..SIZE - 8] == Instructions(second) && t[SIZE - 8..] == PointerBytes(dest, 8);
      PointerRoundTrip(dest, 8);
    }
  }

  lemma PatchedWindow(mem: seq<byte>, at: nat, bs: seq<byte>, fnc: nat)
    requires Mapped(mem, at) && Mapped(mem, fnc) && |bs| == SIZE && Apart(at, fnc)
    ensures Window(Patch(mem, at, bs), fnc) == if fnc == at then bs else Window(mem, fnc)
  {
  }

  /** Wherever hooks may be put, code outside all of their windows is pristine. */
  lemma FreeWindow(w: World, pristine: seq<byte>, fnc: nat)
    requires Invariant(w, pristine) && Mapped(w.mem, fnc)
    requires forall k <- w.hooks :: Apart(w.hooks[k].fnc, fnc)
    ensures PristineOrHooked(w.mem, pristine, fnc)
  {
    if k :| k in w.hooks && w.hooks[k].fnc == fnc {
      assert PristineOrHooked(w.mem, pristine, w.hooks[k].fnc);
    } else {
      forall i | fnc <= i < fnc + SIZE ensures w.mem[i] == pristine[i] {
        assert !Covered(w, i);
      }
      assert Window(w.mem, fnc) == Window(pristine, fnc);
    }
  }

  lemma CoveredBy(w: World, k: nat, i: nat)
    requires k in w.hooks && !w.hooks[k].released && w.hooks[k].fnc <= i < w.hooks[k].fnc + SIZE
    ensures Covered(w, i)
  {
  }

  /** One hook object changes and its window is written: with the pristine code if it ends up released,
      with its trampoline otherwise. */
  lemma WindowWritten(w: World, r: World, pristine: seq<byte>, id: nat, h: Hook)
    requires Invariant(w, pristine) && ValidHook(w.mem, h)
    requires id in w.hooks ==> w.hooks[id].fnc == h.fnc
    requires h.original == Window(pristine, h.fnc)
    requires forall k <- w.hooks :: Apart(w.hooks[k].fnc, h.fnc)
    requires r.hooks == w.hooks[id := h]
    requires r.mem == WrittenMem(w.mem, h)
    ensures Invariant(r, pristine)
  {
    forall k | k in r.hooks
      ensures ValidHook(r.mem, r.hooks[k]) && PristineOrHooked(r.mem, pristine, r.hooks[k].fnc)
    {
      if k != id {
        assert PristineOrHooked(w.mem, pristine, w.hooks[k].fnc);
      }
      OneWindowWritten(w.mem, pristine, h, r.hooks[k].fnc);
    }
    forall i | 0 <= i < |r.mem| && r.mem[i] != pristine[i] ensures Covered(r, i) {
      if i < h.fnc || h.fnc + SIZE <= i {
        assert Covered(w, i);
      }
      StillCovered(w, r, pristine, id, h, i);
    }
  }

  /** Memory after the window of `h` is written according to its released flag. */
  function WrittenMem(mem: seq<byte>, h: Hook): seq<byte>
    requires ValidHook(mem, h)
  {
    if h.released then ReleaseMem(mem, h) else RestoreMem(mem, h)
  }

  lemma OneWindowWritten(mem: seq<byte>, pristine: seq<byte>, h: Hook, fnc: nat)
    requires |mem| == |pristine| && ValidHook(mem, h) && h.original == Window(pristine, h.fnc)
    requires Mapped(mem, fnc) && Apart(h.fnc, fnc)
    requires fnc != h.fnc ==> PristineOrHooked(mem, pristine, fnc)
    ensures PristineOrHooked(WrittenMem(mem, h), pristine, fnc)
  {
    PatchedWindow(mem, h.fnc, if h.released then h.original else Trampoline(h.second, h.dest), fnc);
  }

  lemma StillCovered(w: World, r: World, pristine: seq<byte>, id: nat, h: Hook, i: nat)
    requires |w.mem| == |pristine| && i < |w.mem| && ValidHook(w.mem, h)
    requires id in w.hooks ==> w.hooks[id].fnc == h.fnc
    requires h.original == Window(pristine, h.fnc)
    requires r.hooks == w.hooks[id := h] && r.mem == WrittenMem(w.mem, h) && r.mem[i] != pristine[i]
    requires i < h.fnc || h.fnc + SIZE <= i ==> Covered(w, i)
    ensures Covered(r, i)
  {
    if h.fnc <= i < h.fnc + SIZE {
      assert Window(pristine, h.fnc)[i - h.fnc] == pristine[i];
      CoveredBy(r, id, i);
    } else {
      var k :| k in w.hooks && !w.hooks[k].released && w.hooks[k].fnc <= i < w.hooks[k].fnc + SIZE;
      CoveredBy(r, k, i);
    }
  }

  predicate SameHook(h: Hook, g: Hook) {
    h.(released := g.released) == g
  }

  /** Memory stays, every hook object of `r` is one of `w` (`from` says which, up to its released flag), and every
      unreleased hook of `w` is still there (`into` says where). */
  predicate Relabels(w: World, r: World, from: map<nat, nat>, into: map<nat, nat>) {
    && r.mem == w.mem
    && (forall k <- r.hooks :: k in from && from[k] in w.hooks && SameHook(w.hooks[from[k]], r.hooks[k]))
    && (forall j <- w.hooks :: !w.hooks[j].released ==>
        j in into && into[j] in r.hooks && r.hooks[into[j]] == w.hooks[j])
  }

  lemma RelabelledKeeps(w: World, r: World, pristine: seq<byte>, from: map<nat, nat>, into: map<nat, nat>)
    requires Invariant(w, pristine) && Relabels(w, r, from, into)
    ensures Invariant(r, pristine)
  {
    forall k | k in r.hooks
      ensures ValidHook(r.mem, r.hooks[k]) && r.hooks[k].original == Window(pristine, r.hooks[k].fnc)
      ensures PristineOrHooked(r.mem, pristine, r.hooks[k].fnc)
    {
      assert SameHook(w.hooks[from[k]], r.hooks[k]);
      assert PristineOrHooked(w.mem, pristine, w.hooks[from[k]].fnc);
    }
    forall j, k | j in r.hooks && k in r.hooks ensures Apart(r.hooks[j].fnc, r.hooks[k].fnc) {
      assert Apart(w.hooks[from[j]].fnc, w.hooks[from[k]].fnc);
    }
    forall i | 0 <= i < |r.mem| && r.mem[i] != pristine[i] ensures Covered(r, i) {
      assert Covered(w, i);
      var j :| j in w.hooks && !w.hooks[j].released && w.hooks[j].fnc <= i < w.hooks[j].fnc + SIZE;
      CoveredBy(r, into[j], i);
    }
  }

  /** Guards alone do not matter to the invariant. */
  lemma SameHooksKeep(w: World, r: World, pristine: seq<byte>)
    requires Invariant(w, pristine) && r.mem == w.mem && r.hooks == w.hooks
    ensures Invariant(r, pristine)
  {
    forall i | 0 <= i < |r.mem| && r.mem[i] != pristine[i] ensures Covered(r, i) {
      assert Covered(w, i);
    }
  }

  lemma MoveKeeps(w: World, from: nat, to: nat, pristine: seq<byte>)
    requires Invariant(w, pristine) && Allowed(w, Move(from, to))
    ensures Invariant(Step(w, Move(from, to)), pristine)
  {
    var origin, image := MoveRelabels(w, from, to);
    RelabelledKeeps(w, Step(w, Move(from, to)), pristine, origin, image);
  }

  lemma MoveRelabels(w: World, from: nat, to: nat) returns (origin: map<nat, nat>, image: map<nat, nat>)
    requires ValidWorld(w) && Allowed(w, Move(from, to))
    ensures Relabels(w, Step(w, Move(from, to)), origin, image)
  {
    var r := Step(w, Move(from, to));
    origin := map k: nat | k in r.hooks :: if k == to then from else k;
    image := map j: nat | j in w.hooks :: if j == from then to else j;
    forall k | k in r.hooks ensures k in origin && origin[k] in w.hooks && SameHook(w.hooks[origin[k]], r.hooks[k]) {
    }
    forall j | j in w.hooks && !w.hooks[j].released
      ensures j in image && image[j] in r.hooks && r.hooks[image[j]] == w.hooks[j]
    {
    }
  }

  /** Every operation keeps the invariant. */
  lemma StepKeeps(w: World, a: Action, pristine: seq<byte>)
    requires Invariant(w, pristine) && Allowed(w, a)
    ensures Invariant(Step(w, a), pristine)
  {
    var r := Step(w, a);
    match a {
      case Create(id, fnc, dest, second) =>
        FreeWindow(w, pristine, fnc);
        if HookAt(w.mem, fnc) == 0 {
          if IsTrampoline(Window(w.mem, fnc)) {
            TrampolineIsFound(w.mem, fnc);
          }
          WindowWritten(w, r, pristine, id, NewHook(w.mem, fnc, dest, second));
        }
      case Move(from, to) =>
        MoveKeeps(w, from, to, pristine);
      case Destroy(id) =>
        DestroyKeeps(w, id, pristine);
      case Enter(scope, id) =>
        var h := w.hooks[id];
        if h.released {
          assert w.hooks[id := h] == w.hooks;
          SameHooksKeep(w, r, pristine);
        } else {
          WindowWritten(w, r, pristine, id, h.(released := true));
        }
      case Leave(scope) =>
        var s := w.scopes[scope];
        if s.active {
          WindowWritten(w, r, pristine, s.hook, w.hooks[s.hook].(released := false));
        } else {
          SameHooksKeep(w, r, pristine);
        }
    }
  }

  lemma DestroyKeeps(w: World, id: nat, pristine: seq<byte>)
    requires Invariant(w, pristine) && Allowed(w, Destroy(id))
    ensures Invariant(Step(w, Destroy(id)), pristine)
  {
    var lifted := Lifted(w, id);
    if w.hooks[id].released {
      assert lifted.hooks == w.hooks;
    } else {
      WindowWritten(w, lifted, pristine, id, lifted.hooks[id]);
    }
    var same := DestroyRelabels(w, id);
    RelabelledKeeps(lifted, Step(w, Destroy(id)), pristine, same, same);
  }

  /** The destructor before the object is gone. */
  function Lifted(w: World, id: nat): World
    requires ValidWorld(w) && id in w.hooks
  {
    World(DestroyMem(w.mem, w.hooks[id]), w.hooks[id := w.hooks[id].(released := true)], w.scopes)
  }

  lemma DestroyRelabels(w: World, id: nat) returns (same: map<nat, nat>)
    requires ValidWorld(w) && Allowed(w, Destroy(id))
    ensures Relabels(Lifted(w, id), Step(w, Destroy(id)), same, same)
  {
    same := map k: nat | k in Lifted(w, id).hooks :: k;
  }

  // ----- runs -----

  predicate AllowedRun(w: World, actions: seq<Action>)
    requires ValidWorld(w)
    decreases |actions|
  {
    actions == [] || (Allowed(w, actions[0]) && AllowedRun(Step(w, actions[0]), actions[1..]))
  }

  function Run(w: World, actions: seq<Action>): (r: World)
    requires ValidWorld(w) && AllowedRun(w, actions)
    ensures |r.mem| == |w.mem|
    decreases |actions|
  {
    if actions == [] then w else Run(Step(w, actions[0]), actions[1..])
  }

  lemma {:induction false} RunKeeps(w: World, actions: seq<Action>, pristine: seq<byte>)
    requires Invariant(w, pristine) && AllowedRun(w, actions)
    ensures Invariant(Run(w, actions), pristine)
    decreases |actions|
  {
    if actions != [] {
      StepKeeps(w, actions[0], pristine);
      RunKeeps(Step(w, actions[0]), actions[1..], pristine);
    }
  }

  /** In every run that starts without hooks: each saved `original` is the pristine code, memory differs from the
      pristine image only inside the window of a live unreleased hook, and once no hook is left it is pristine. */
  lemma CodeIsNeverLost(pristine: seq<byte>, actions: seq<Action>)
    requires AllowedRun(World(pristine, map[], map[]), actions)
    ensures var w := Run(World(pristine, map[], map[]), actions);
      && (forall k <- w.hooks ::
          Mapped(pristine, w.hooks[k].fnc) && w.hooks[k].original == Window(pristine, w.hooks[k].fnc))
      && (forall i :: 0 <= i < |pristine| && w.mem[i] != pristine[i] ==> Covered(w, i))
      && ((forall k <- w.hooks :: w.hooks[k].released) ==> w.mem == pristine)
  {
    var start := World(pristine, map[], map[]);
    RunKeeps(start, actions, pristine);
    var w := Run(start, actions);
    if forall k <- w.hooks :: w.hooks[k].released {
      assert forall i :: 0 <= i < |pristine| ==> !Covered(w, i);
    }
  }

  lemma PatchBack(mem: seq<byte>, at: nat, other: seq<byte>, bs: seq<byte>)
    requires Mapped(mem, at) && |other| == SIZE && Window(mem, at) == bs
    ensures Patch(Patch(mem, at, other), at, bs) == mem
  {
    forall i | at <= i < at + SIZE ensures bs[i - at] == mem[i] {
      assert Window(mem, at)[i - at] == mem[i];
    }
  }

  /** A guard around a hook in place: the code it covers is pristine inside, whatever other hooks do elsewhere,
      and the hook is back, exactly as before, when the guard ends. */
  lemma GuardLiftsAndRestores(w: World, pristine: seq<byte>, scope: nat, id: nat)
    requires Invariant(w, pristine) && Allowed(w, Enter(scope, id)) && !w.hooks[id].released
    requires Window(w.mem, w.hooks[id].fnc) == Trampoline(w.hooks[id].second, w.hooks[id].dest)
    ensures var inside := Step(w, Enter(scope, id));
      && Window(inside.mem, w.hooks[id].fnc) == Window(pristine, w.hooks[id].fnc)
      && Allowed(inside, Leave(scope))
      && Step(inside, Leave(scope)) == w
  {
    var h := w.hooks[id];
    var inside := Step(w, Enter(scope, id));
    PatchedWindow(w.mem, h.fnc, h.original, h.fnc);
    var after := Step(inside, Leave(scope));
    assert after.hooks == w.hooks && after.scopes == w.scopes;
    PatchBack(w.mem, h.fnc, h.original, Trampoline(h.second, h.dest));
  }

  /** A created hook is found by `getHookAt`, so a second one on the same code is refused. */
  lemma CreatedHookIsFound(w: World, id: nat, fnc: nat, dest: nat, second: bool)
    requires ValidWorld(w) && Allowed(w, Create(id, fnc, dest, second)) && HookAt(w.mem, fnc) == 0
    ensures HookAt(Step(w, Create(id, fnc, dest, second)).mem, fnc) == dest
  {
    var r := Step(w, Create(id, fnc, dest, second));
    PatchedWindow(w.mem, fnc, Trampoline(second, dest), fnc);
    assert IsTrampoline(Window(r.mem, fnc));
    TrampolineIsFound(r.mem, fnc);
  }
}
