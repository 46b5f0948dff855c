/** Section events of the configuration reader: `ConfigBase::from_config` brackets the items of a section
    `a.b.c` between `++` and `--` items, and `checkParentSegments` opens and closes the levels in between,
    sometimes by taking back a `--` that it had already emitted.
    Main results: `SectionsNest` and, for files that return to the default section, `NestsExactly`. */
module Sections {
  import opened Text

  type Path = seq<string>

  /** A `ConfigItem` without its inputs. */
  datatype ConfigItem = ConfigItem(parents: Path, name: string)

  const OPEN := "++"
  const CLOSE := "--"

  /** A line of the file that matters here: a section header, with no path for the default section,
      or a key with its value. */
  datatype Line = Header(section: Option<Path>) | Key(name: string)

  predicate ValidLine(line: Line) {
    match line
    case Header(section) => section.Some? ==> section.value != []
    case Key(name) => name != OPEN && name != CLOSE
  }

  predicate ValidLines(lines: seq<Line>) {
    forall i :: 0 <= i < |lines| ==> ValidLine(lines[i])
  }

  /** The reader between two lines: what it has emitted, and the section it is in. */
  datatype State = State(output: seq<ConfigItem>, current: Option<Path>)

  const START := State([], None)

  function Last(output: seq<ConfigItem>): ConfigItem
    requires output != []
  {
    output[|output| - 1]
  }

  function Front(output: seq<ConfigItem>): seq<ConfigItem>
    requires output != []
  {
    output[..|output| - 1]
  }

  // ----- what the reader does -----

  /** Repeats the last item with one level less until it has at most `keep` levels. */
  function CloseDown(output: seq<ConfigItem>, keep: nat): (r: seq<ConfigItem>)
    requires output != []
    ensures r != [] && output <= r && Last(r).name == Last(output).name
    ensures |Last(r).parents| == if |Last(output).parents| <= keep then |Last(output).parents| else keep
    ensures Last(r).parents <= Last(output).parents
    decreases |Last(output).parents|
  {
    var last := Last(output);
    if |last.parents| <= keep then output
    else CloseDown(output + [ConfigItem(last.parents[..|last.parents| - 1], last.name)], keep)
  }

  /** Opens the levels `from + 1` up to, but not including, the last one. */
  function OpenUp(output: seq<ConfigItem>, parents: Path, from: nat): (r: seq<ConfigItem>)
    requires from < |parents|
    ensures output <= r
    decreases |parents| - from
  {
    if from == |parents| - 1 then output
    else OpenUp(output + [ConfigItem(parents[..from + 1], OPEN)], parents, from + 1)
  }

  /** How many leading levels two paths share. */
  function Common(a: Path, b: Path): (n: nat)
    ensures n <= |a| && n <= |b| && a[..n] == b[..n]
    ensures n < |a| && n < |b| ==> a[n] != b[n]
  {
    if a == [] || b == [] || a[0] != b[0] then 0
    else
      var n := Common(a[1..], b[1..]);
      assert a[..n + 1] == [a[0]] + a[1..][..n] && b[..n + 1] == [b[0]] + b[1..][..n];
      n + 1
  }

  /** Takes back the last close if it closed a parent of the new section, or closes further down to the levels that
      are shared; then opens the levels of the new section that are missing. */
  function Rejoin(closed: seq<ConfigItem>, parents: Path): (r: seq<ConfigItem>)
    requires closed != [] && |parents| > 1
    ensures Front(closed) <= r
  {
    var shared := Common(Last(closed).parents, parents[..|parents| - 1]);
    OpenUp(if shared == |Last(closed).parents| then Front(closed) else CloseDown(closed, shared + 1), parents, shared)
  }

  /** `checkParentSegments` up to the last `++`. */
  function Reach(output: seq<ConfigItem>, parents: Path): (r: seq<ConfigItem>)
    requires parents != []
    ensures output != [] ==> Front(output) <= r
    ensures output != [] && Last(output).name != CLOSE ==> output <= r
  {
    if output != [] && Last(output).name == CLOSE then
      if |parents| > 1 then Rejoin(CloseDown(output, |parents| - 1), parents) else CloseDown(output, 1)
    else OpenUp(output, parents, 0)
  }

  function CheckParents(output: seq<ConfigItem>, parents: Path): seq<ConfigItem>
    requires parents != []
  {
    Reach(output, parents) + [ConfigItem(parents, OPEN)]
  }

  function StepLine(s: State, line: Line): State
    requires ValidLine(line)
  {
    match line
    case Header(section) =>
      var output := if s.current.Some? then s.output + [ConfigItem(s.current.value, CLOSE)] else s.output;
      State(if section.Some? then CheckParents(output, section.value) else output, section)
    case Key(name) =>
      var item := ConfigItem(if s.current.Some? then s.current.value else [], name);
      if s.output != [] && Last(s.output) == item then s else s.(output := s.output + [item])
  }

  function Finish(s: State): seq<ConfigItem> {
    if s.current.Some? then CloseDown(s.output + [ConfigItem(s.current.value, CLOSE)], 1) else s.output
  }

  function Run(s: State, lines: seq<Line>): State
    requires ValidLines(lines)
    decreases |lines|
  {
    if lines == [] then s else Run(StepLine(s, lines[0]), lines[1..])
  }

  /** Everything emitted for a file. */
  function Emitted(lines: seq<Line>): seq<ConfigItem>
    requires ValidLines(lines)
  {
    Finish(Run(START, lines))
  }

  /** The reader as the source has it: it appends to `output`, and takes back from its end. */
  class ConfigReader {
    var output: seq<ConfigItem>
    var current: Option<Path>

    function Value(): State
      reads this
    {
      State(output, current)
    }

    constructor ()
      ensures Value() == START
    {
      output := [];
      current := None;
    }

    /** `while(output.back().parents.size() > keep)` with its body. */
    method CloseLevels(keep: nat)
      requires output != []
      modifies `output
      ensures output == CloseDown(old(output), keep)
    {
      while |Last(output).parents| > keep
        invariant output != [] && CloseDown(output, keep) == CloseDown(old(output), keep)
        decreases |Last(output).parents|
      {
        var back := Last(output);
        output := output + [back];
        output := output[..|output| - 1] + [ConfigItem(back.parents[..|back.parents| - 1], back.name)];
        assert output == output[..|output| - 1] + [Last(output)];
      }
    }

    method OpenLevels(parents: Path, from: nat)
      requires from < |parents|
      modifies `output
      ensures output == OpenUp(old(output), parents, from)
    {
      for ii := from to |parents| - 1
        invariant OpenUp(output, parents, ii) == OpenUp(old(output), parents, from)
      {
        output := output + [ConfigItem(parents[..ii + 1], OPEN)];
      }
    }

    method RejoinLevels(parents: Path)
      requires output != [] && |Last(output).parents| < |parents| && |parents| > 1
      modifies `output
      ensures output == Rejoin(old(output), parents)
    {
      var back := Last(output).parents;
      var common := 0;
      var mpair := if |back| < |parents| - 1 then |back| else |parents| - 1;
      while common < mpair && back[common] == parents[common]
        invariant common <= mpair && back[..common] == parents[..common]
      {
        assert back[..common + 1] == back[..common] + [back[common]];
        common := common + 1;
      }
      CommonIs(back, parents[..|parents| - 1], common);
      if common == mpair {
        output := output[..|output| - 1];
      } else {
        CloseLevels(common + 1);
      }
      OpenLevels(parents, common);
    }

    method CheckParentSegments(parents: Path)
      requires parents != []
      modifies `output
      ensures output == CheckParents(old(output), parents)
    {
      if output != [] && Last(output).name == CLOSE {
        var msize := if |parents| > 1 then |parents| else 2;
        CloseLevels(msize - 1);
        if |parents| > 1 {
          RejoinLevels(parents);
        }
      } else if |parents| > 1 {
        OpenLevels(parents, 0);
      }
      output := output + [ConfigItem(parents, OPEN)];
    }

    method ReadLine(line: Line)
      requires ValidLine(line)
      modifies this
      ensures Value() == StepLine(old(Value()), line)
    {
      match line {
        case Header(section) =>
          if current.Some? {
            output := output + [ConfigItem(current.value, CLOSE)];
          }
          current := section;
          if section.Some? {
            CheckParentSegments(section.value);
          }
        case Key(name) =>
          var item := ConfigItem(if current.Some? then current.value else [], name);
          if output == [] || Last(output) != item {
            output := output + [item];
          }
      }
    }

    method EndOfFile()
      modifies `output
      ensures output == Finish(old(Value()))
    {
      if current.Some? {
        output := output + [ConfigItem(current.value, CLOSE)];
        CloseLevels(1);
      }
    }
  }

  method FromConfig(lines: seq<Line>) returns (output: seq<ConfigItem>)
    requires ValidLines(lines)
    ensures output == Emitted(lines)
  {
    var reader := new ConfigReader();
    for i := 0 to |lines|
      invariant Run(reader.Value(), lines[i..]) == Run(START, lines)
    {
      assert lines[i..][1..] == lines[i + 1..];
      reader.ReadLine(lines[i]);
    }
    reader.EndOfFile();
    output := reader.output;
  }

  lemma {:induction false} CommonIs(a: Path, b: Path, n: nat)
    requires n <= |a| && n <= |b| && a[..n] == b[..n]
    requires n == |a| || n == |b| || a[n] != b[n]
    ensures Common(a, b) == n
  {
    var m := Common(a, b);
    assert forall k :: 0 <= k < n ==> a[k] == a[..n][k] == b[..n][k] == b[k];
    assert forall k :: 0 <= k < m ==> a[k] == a[..m][k] == b[..m][k] == b[k];
  }

  // ----- replaying the events -----

  /** Replays items on the path that is open. `++` must open a child of the open path, `--` must close exactly the
      open path, and any other item must belong to exactly the open path; anything else is a mismatch.
      (The open paths at any time are the open one and its prefixes.) */
  function Replay(open: Path, items: seq<ConfigItem>): Option<Path>
    decreases |items|
  {
    if items == [] then Some(open)
    else
      var next := ReplayOne(open, items[0]);
      if next.None? then None else Replay(next.value, items[1..])
  }

  function ReplayOne(open: Path, item: ConfigItem): Option<Path> {
    if item.name == OPEN then
      if item.parents != [] && item.parents[..|item.parents| - 1] == open then Some(item.parents) else None
    else if item.name == CLOSE then
      if item.parents == open && open != [] then Some(open[..|open| - 1]) else None
    else if item.parents == open then Some(open) else None
  }

  lemma {:induction false} ReplayAppend(open: Path, a: seq<ConfigItem>, b: seq<ConfigItem>)
    ensures Replay(open, a + b) ==
      match Replay(open, a)
      case None => None
      case Some(p) => Replay(p, b)
    decreases |a|
  {
    if a == [] {
      assert a + b == b;
    } else {
      var ab := a + b;
      assert ab[1..] == a[1..] + b;
      if ReplayOne(open, a[0]).Some? {
        ReplayAppend(ReplayOne(open, a[0]).value, a[1..], b);
      }
    }
  }

  /** Everything emitted so far replays and leaves `p` open. */
  predicate LeavesOpen(output: seq<ConfigItem>, p: Path) {
    Replay([], output) == Some(p)
  }

  lemma LeavesOpenPush(output: seq<ConfigItem>, p: Path, item: ConfigItem)
    requires LeavesOpen(output, p) && ReplayOne(p, item).Some?
    ensures LeavesOpen(output + [item], ReplayOne(p, item).value)
  {
    ReplayAppend([], output, [item]);
  }

  /** The last item closes `p`, which is open in front of it: the close that may still be taken back. */
  predicate EndsClosing(output: seq<ConfigItem>, p: Path) {
    output != [] && p != [] && Last(output) == ConfigItem(p, CLOSE) && LeavesOpen(Front(output), p)
  }

  lemma EndsClosingLeaves(output: seq<ConfigItem>, p: Path)
    requires EndsClosing(output, p)
    ensures LeavesOpen(output, p[..|p| - 1])
  {
    LeavesOpenPush(Front(output), p, Last(output));
    assert Front(output) + [Last(output)] == output;
  }

  lemma {:induction false} CloseDownEnds(output: seq<ConfigItem>, p: Path, keep: nat)
    requires EndsClosing(output, p) && keep >= 1
    ensures EndsClosing(CloseDown(output, keep), if |p| <= keep then p else p[..keep])
    decreases |p|
  {
    if |p| > keep {
      var q := p[..|p| - 1];
      var next := output + [ConfigItem(q, CLOSE)];
      EndsClosingLeaves(output, p);
      assert Front(next) == output;
      CloseDownEnds(next, q, keep);
      assert |q| > keep ==> q[..keep] == p[..keep];
    }
  }

  lemma {:induction false} OpenUpLeaves(output: seq<ConfigItem>, parents: Path, from: nat)
    requires from < |parents| && LeavesOpen(output, parents[..from])
    ensures LeavesOpen(OpenUp(output, parents, from), parents[..|parents| - 1])
    decreases |parents| - from
  {
    if from < |parents| - 1 {
      var item := ConfigItem(parents[..from + 1], OPEN);
      assert parents[..from + 1][..from] == parents[..from];
      LeavesOpenPush(output, parents[..from], item);
      OpenUpLeaves(output + [item], parents, from + 1);
    }
  }

  /** After leaving `p`, or with nothing open, the new section ends up open, whatever was taken back. */
  lemma CheckParentsOpens(output: seq<ConfigItem>, p: Path, parents: Path)
    requires parents != []
    requires EndsClosing(output, p) || (LeavesOpen(output, []) && (output == [] || Last(output).name != CLOSE))
    ensures LeavesOpen(CheckParents(output, parents), parents)
  {
    var front := parents[..|parents| - 1];
    assert LeavesOpen(Reach(output, parents), front) by {
      if output != [] && Last(output).name == CLOSE {
        ReachFromSection(output, p, parents);
      } else {
        assert parents[..0] == [];
        OpenUpLeaves(output, parents, 0);
      }
    }
    LeavesOpenPush(Reach(output, parents), front, ConfigItem(parents, OPEN));
  }

  lemma ReachFromSection(output: seq<ConfigItem>, p: Path, parents: Path)
    requires parents != [] && EndsClosing(output, p)
    ensures LeavesOpen(Reach(output, parents), parents[..|parents| - 1])
  {
    var keep := if |parents| > 1 then |parents| - 1 else 1;
    var m := if |p| <= keep then p else p[..keep];
    CloseDownEnds(output, p, keep);
    if |parents| == 1 {
      EndsClosingLeaves(CloseDown(output, 1), m);
      assert m[..0] == parents[..0] == [];
    } else {
      RejoinLeaves(CloseDown(output, keep), m, parents);
    }
  }

  lemma RejoinLeaves(closed: seq<ConfigItem>, m: Path, parents: Path)
    requires |parents| > 1 && EndsClosing(closed, m) && |m| < |parents|
    ensures LeavesOpen(Rejoin(closed, parents), parents[..|parents| - 1])
  {
    var shared := Common(m, parents[..|parents| - 1]);
    assert m[..shared] == parents[..|parents| - 1][..shared] == parents[..shared];
    if shared == |m| {
      assert m[..shared] == m;
      OpenUpLeaves(Front(closed), parents, shared);
    } else {
      CloseThenOpen(closed, m, parents, shared);
    }
  }

  lemma CloseThenOpen(closed: seq<ConfigItem>, m: Path, parents: Path, shared: nat)
    requires EndsClosing(closed, m) && shared < |m| && shared < |parents| && m[..shared] == parents[..shared]
    ensures LeavesOpen(OpenUp(CloseDown(closed, shared + 1), parents, shared), parents[..|parents| - 1])
  {
    var again := CloseDown(closed, shared + 1);
    var n := if |m| <= shared + 1 then m else m[..shared + 1];
    CloseDownEnds(closed, m, shared + 1);
    EndsClosingLeaves(again, n);
    assert n[..|n| - 1] == m[..shared];
    OpenUpLeaves(again, parents, shared);
  }

  // ----- whole files -----

  /** Where the reader stands: inside a section, in the default section with nothing left open, or in the default
      section with the section `p` just closed and nothing emitted since. */
  datatype Place = Inside(p: Path) | Idle | Left(p: Path)

  function NextPlace(at: Place, line: Line): Place {
    match line
    case Header(Some(q)) => Inside(q)
    case Header(None) => if at.Inside? then Left(at.p) else at
    case Key(_) => if at.Inside? then at else Idle
  }

  /** A multi-level section was left for the default section, and then a default key follows or the file ends:
      only the innermost level was closed, so its parents stay open. */
  predicate Strands(at: Place, lines: seq<Line>)
    decreases |lines|
  {
    if at.Left? && |at.p| >= 2 && (lines == [] || lines[0].Key?) then true
    else lines != [] && Strands(NextPlace(at, lines[0]), lines[1..])
  }

  predicate Stands(s: State, at: Place) {
    match at
    case Inside(p) => p != [] && s.current == Some(p) && LeavesOpen(s.output, p)
    case Idle => s.current.None? && LeavesOpen(s.output, []) && (s.output == [] || Last(s.output).name != CLOSE)
    case Left(p) => s.current.None? && EndsClosing(s.output, p)
  }

  lemma HeaderStands(s: State, at: Place, section: Option<Path>)
    requires Stands(s, at) && ValidLine(Header(section))
    ensures Stands(StepLine(s, Header(section)), NextPlace(at, Header(section)))
  {
    var output := s.output;
    if at.Inside? {
      output := output + [ConfigItem(at.p, CLOSE)];
      assert Front(output) == s.output;
      assert EndsClosing(output, at.p);
    }
    if section.Some? {
      CheckParentsOpens(output, if at.Idle? then [] else at.p, section.value);
    }
  }

  lemma KeyStands(s: State, at: Place, name: string)
    requires Stands(s, at) && ValidLine(Key(name)) && !(at.Left? && |at.p| >= 2)
    ensures Stands(StepLine(s, Key(name)), NextPlace(at, Key(name)))
  {
    var open := if at.Inside? then at.p else [];
    if at.Left? {
      EndsClosingLeaves(s.output, at.p);
      assert at.p[..0] == [];
    }
    var item := ConfigItem(open, name);
    if s.output == [] || Last(s.output) != item {
      LeavesOpenPush(s.output, open, item);
    }
  }

  /** Nothing can repair a mismatch: the items up to it stay in the output. */
  predicate Stuck(output: seq<ConfigItem>, k: nat) {
    0 < k <= |output| && output[k - 1].name != CLOSE && Replay([], output[..k]).None?
  }

  /** `r` keeps `output` but for a last close: so it keeps the first `k` items, which do not end in a close. */
  lemma PrefixKept(output: seq<ConfigItem>, r: seq<ConfigItem>, k: nat)
    requires 0 < k <= |output| && output[k - 1].name != CLOSE
    requires Front(output) <= r && (Last(output).name != CLOSE ==> output <= r)
    ensures |r| >= k && r[..k] == output[..k]
  {
    if k < |output| {
      assert Front(output)[..k] == output[..k];
    }
  }

  lemma StuckStays(s: State, line: Line, k: nat)
    requires ValidLine(line) && Stuck(s.output, k)
    ensures Stuck(StepLine(s, line).output, k)
  {
    var output := if s.current.Some? then s.output + [ConfigItem(s.current.value, CLOSE)] else s.output;
    assert output[..k] == s.output[..k] && output[k - 1] == s.output[k - 1];
    if line.Header? && line.section.Some? {
      var reached := Reach(output, line.section.value);
      PrefixKept(output, reached, k);
      assert reached[k - 1] == reached[..k][k - 1] == output[..k][k - 1];
      var final := reached + [ConfigItem(line.section.value, OPEN)];
      assert final[..k] == reached[..k] && final[k - 1] == reached[k - 1];
    } else if line.Key? {
      assert StepLine(s, line).output[..k] == s.output[..k];
    }
  }

  lemma {:induction false} StuckForever(s: State, lines: seq<Line>, k: nat)
    requires ValidLines(lines) && Stuck(s.output, k)
    ensures Replay([], Finish(Run(s, lines))).None?
    decreases |lines|
  {
    if lines == [] {
      var output := Finish(s);
      assert output[..k] == s.output[..k] && output[..k] + output[k..] == output;
      ReplayAppend([], output[..k], output[k..]);
    } else {
      StuckStays(s, lines[0], k);
      StuckForever(StepLine(s, lines[0]), lines[1..], k);
    }
  }

  lemma KeyStrands(s: State, p: Path, name: string)
    requires Stands(s, Left(p)) && |p| >= 2 && ValidLine(Key(name))
    ensures Stuck(StepLine(s, Key(name)).output, |s.output| + 1)
  {
    EndsClosingLeaves(s.output, p);
    var item := ConfigItem([], name);
    ReplayAppend([], s.output, [item]);
    var output := s.output + [item];
    assert output[..|s.output| + 1] == output;
  }

  lemma EndStands(s: State, at: Place)
    requires Stands(s, at)
    ensures LeavesOpen(Finish(s), []) <==> !Strands(at, [])
  {
    match at {
      case Inside(p) =>
        var output := s.output + [ConfigItem(p, CLOSE)];
        assert Front(output) == s.output;
        CloseDownEnds(output, p, 1);
        var q := if |p| <= 1 then p else p[..1];
        EndsClosingLeaves(CloseDown(output, 1), q);
        assert q[..0] == [];
      case Idle =>
      case Left(p) =>
        EndsClosingLeaves(s.output, p);
    }
  }

  lemma {:induction false} RunNests(s: State, at: Place, lines: seq<Line>)
    requires ValidLines(lines) && Stands(s, at)
    ensures LeavesOpen(Finish(Run(s, lines)), []) <==> !Strands(at, lines)
    decreases |lines|
  {
    if lines == [] {
      EndStands(s, at);
    } else {
      assert ValidLine(lines[0]);
      match lines[0] {
        case Header(section) =>
          HeaderStands(s, at, section);
          RunNests(StepLine(s, lines[0]), NextPlace(at, lines[0]), lines[1..]);
        case Key(name) =>
          if at.Left? && |at.p| >= 2 {
            KeyStrands(s, at.p, name);
            StuckForever(StepLine(s, lines[0]), lines[1..], |s.output| + 1);
          } else {
            KeyStands(s, at, name);
            RunNests(StepLine(s, lines[0]), NextPlace(at, lines[0]), lines[1..]);
          }
      }
    }
  }

  /** For every file, the emitted items replay without a mismatch and leave nothing open exactly when the file
      never strands a multi-level section. */
  lemma NestsExactly(lines: seq<Line>)
    requires ValidLines(lines)
    ensures LeavesOpen(Emitted(lines), []) <==> !Strands(Idle, lines)
  {
    RunNests(START, Idle, lines);
  }

  lemma {:induction false} NoReturnNoStrand(at: Place, lines: seq<Line>)
    requires !at.Left? && forall i :: 0 <= i < |lines| ==> lines[i] != Header(None)
    ensures !Strands(at, lines)
    decreases |lines|
  {
    if lines != [] {
      assert lines[0] != Header(None);
      NoReturnNoStrand(NextPlace(at, lines[0]), lines[1..]);
    }
  }

  /** Section events are well nested over the whole file, for every file that never returns to the default section. */
  lemma SectionsNest(lines: seq<Line>)
    requires ValidLines(lines) && forall i :: 0 <= i < |lines| ==> lines[i] != Header(None)
    ensures LeavesOpen(Emitted(lines), [])
  {
    NestsExactly(lines);
    NoReturnNoStrand(Idle, lines);
  }

  /** The smallest file that fails: a two-level section, then the default section. */
  lemma ReturnToDefaultStrands()
    ensures !LeavesOpen(Emitted([Header(Some(["a", "b"])), Header(None)]), [])
  {
    var lines := [Header(Some(["a", "b"])), Header(None)];
    var at := NextPlace(NextPlace(Idle, lines[0]), lines[1]);
    assert lines[1..][1..] == [] && at == Left(["a", "b"]);
    assert Strands(at, []);
    assert Strands(NextPlace(Idle, lines[0]), lines[1..]);
    NestsExactly(lines);
  }

  // ----- no item is lost or moved -----

  /** The items that are neither `++` nor `--`. */
  function Items(output: seq<ConfigItem>): seq<ConfigItem> {
    if output == [] then []
    else Items(Front(output)) + if Last(output).name == OPEN || Last(output).name == CLOSE then [] else [Last(output)]
  }

  /** The keys of the file in order, each with the path of the section it stands in. A key that repeats the one
      emitted right before it is merged into that one. */
  function Keys(lines: seq<Line>, current: Option<Path>, last: Option<ConfigItem>): seq<ConfigItem>
    decreases |lines|
  {
    if lines == [] then []
    else
      match lines[0]
      case Header(section) => Keys(lines[1..], section, if current.None? && section.None? then last else None)
      case Key(name) =>
        var item := ConfigItem(if current.Some? then current.value else [], name);
        (if last == Some(item) then [] else [item]) + Keys(lines[1..], current, Some(item))
  }

  lemma ItemsPush(output: seq<ConfigItem>, item: ConfigItem)
    ensures Items(output + [item]) == Items(output) + if item.name == OPEN || item.name == CLOSE then [] else [item]
  {
    assert Front(output + [item]) == output;
  }

  lemma {:induction false} CloseDownItems(output: seq<ConfigItem>, keep: nat)
    requires output != [] && Last(output).name == CLOSE
    ensures Items(CloseDown(output, keep)) == Items(output) && Last(CloseDown(output, keep)).name == CLOSE
    decreases |Last(output).parents|
  {
    var last := Last(output);
    if |last.parents| > keep {
      var item := ConfigItem(last.parents[..|last.parents| - 1], last.name);
      ItemsPush(output, item);
      CloseDownItems(output + [item], keep);
    }
  }

  lemma {:induction false} OpenUpItems(output: seq<ConfigItem>, parents: Path, from: nat)
    requires from < |parents|
    ensures Items(OpenUp(output, parents, from)) == Items(output)
    decreases |parents| - from
  {
    if from < |parents| - 1 {
      ItemsPush(output, ConfigItem(parents[..from + 1], OPEN));
      OpenUpItems(output + [ConfigItem(parents[..from + 1], OPEN)], parents, from + 1);
    }
  }

  lemma ReachItems(output: seq<ConfigItem>, parents: Path)
    requires parents != [] && output != [] && Last(output).name == CLOSE
    ensures Items(Reach(output, parents)) == Items(output)
  {
    if |parents| > 1 {
      CloseDownItems(output, |parents| - 1);
      RejoinItems(CloseDown(output, |parents| - 1), parents);
    } else {
      CloseDownItems(output, 1);
    }
  }

  lemma RejoinItems(closed: seq<ConfigItem>, parents: Path)
    requires |parents| > 1 && closed != [] && Last(closed).name == CLOSE
    ensures Items(Rejoin(closed, parents)) == Items(closed)
  {
    var shared := Common(Last(closed).parents, parents[..|parents| - 1]);
    if shared == |Last(closed).parents| {
      OpenUpItems(Front(closed), parents, shared);
    } else {
      CloseDownItems(closed, shared + 1);
      OpenUpItems(CloseDown(closed, shared + 1), parents, shared);
    }
  }

  lemma CheckParentsItems(output: seq<ConfigItem>, parents: Path)
    requires parents != []
    ensures Items(CheckParents(output, parents)) == Items(output)
  {
    if output != [] && Last(output).name == CLOSE {
      ReachItems(output, parents);
    } else {
      OpenUpItems(output, parents, 0);
    }
    ItemsPush(Reach(output, parents), ConfigItem(parents, OPEN));
  }

  function LastKey(output: seq<ConfigItem>): Option<ConfigItem> {
    if output == [] || Last(output).name == OPEN || Last(output).name == CLOSE then None else Some(Last(output))
  }

  lemma {:induction false} RunItems(s: State, lines: seq<Line>)
    requires ValidLines(lines)
    ensures Items(Finish(Run(s, lines))) == Items(s.output) + Keys(lines, s.current, LastKey(s.output))
    decreases |lines|
  {
    if lines == [] {
      if s.current.Some? {
        var close := ConfigItem(s.current.value, CLOSE);
        ItemsPush(s.output, close);
        CloseDownItems(s.output + [close], 1);
      }
    } else {
      var line, next := lines[0], StepLine(s, lines[0]);
      assert ValidLine(line);
      RunItems(next, lines[1..]);
      if line.Header? {
        HeaderItems(s, line.section);
      } else {
        var item := ConfigItem(if s.current.Some? then s.current.value else [], line.name);
        KeyItems(s, line.name, Keys(lines[1..], s.current, Some(item)));
      }
    }
  }

  lemma KeyItems(s: State, name: string, rest: seq<ConfigItem>)
    requires ValidLine(Key(name))
    ensures var item := ConfigItem(if s.current.Some? then s.current.value else [], name);
      && LastKey(StepLine(s, Key(name)).output) == Some(item)
      && Items(StepLine(s, Key(name)).output) + rest
          == Items(s.output) + ((if LastKey(s.output) == Some(item) then [] else [item]) + rest)
  {
    var item := ConfigItem(if s.current.Some? then s.current.value else [], name);
    ItemsPush(s.output, item);
    assert [] + rest == rest;
    assert (Items(s.output) + [item]) + rest == Items(s.output) + ([item] + rest);
  }

  lemma HeaderItems(s: State, section: Option<Path>)
    requires ValidLine(Header(section))
    ensures Items(StepLine(s, Header(section)).output) == Items(s.output)
    ensures LastKey(StepLine(s, Header(section)).output)
         == if s.current.None? && section.None? then LastKey(s.output) else None
  {
    var output := s.output;
    if s.current.Some? {
      ItemsPush(output, ConfigItem(s.current.value, CLOSE));
      output := output + [ConfigItem(s.current.value, CLOSE)];
    }
    if section.Some? {
      CheckParentsItems(output, section.value);
    }
  }

  /** Taking events back never loses an item: apart from `++` and `--`, what is emitted is the keys of the file,
      in order, each under the path of its own section. */
  lemma EmittedItems(lines: seq<Line>)
    requires ValidLines(lines)
    ensures Items(Emitted(lines)) == Keys(lines, None, None)
  {
    RunItems(START, lines);
  }
}
