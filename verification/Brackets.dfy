/** `close_string_quote`, `close_literal_quote` and `close_sequence`: where does a quoted or
    bracketed run end? The loop with an explicit stack of closers is proved to compute a
    recursive-descent reading of the text, and that reading is proved to find the mate of
    the opening bracket of every text printed from a tree of nested pieces. */
module Brackets {
  import opened Text

  predicate IsQuote(c: char) {
    c == '"' || c == '\'' || c == '`'
  }

  predicate IsOpener(c: char) {
    c == '[' || c == '(' || c == '<' || c == '{'
  }

  predicate IsCloser(c: char) {
    c == ']' || c == ')' || c == '>' || c == '}'
  }

  /** Membership in `bracketChars()`. */
  predicate IsBracketChar(c: char) {
    IsQuote(c) || IsOpener(c)
  }

  /** `matchBracketChars()` at the index of `c` in `bracketChars()`. */
  function Mate(c: char): (m: char)
    ensures IsQuote(c) ==> m == c
    ensures IsOpener(c) ==> IsCloser(m)
  {
    if c == '[' then ']' else if c == '(' then ')' else if c == '<' then '>' else if c == '{' then '}' else c
  }

  /** Index of the first unescaped `closure` at or after `i`; a trailing backslash runs one past the end. */
  function StringQuoteEnd(s: string, i: nat, closure: char): (k: nat)
    ensures i <= k
    ensures k < |s| ==> s[k] == closure
    ensures k <= |s| + 1 || k == i
    decreases |s| - i
  {
    if i >= |s| then i
    else if s[i] == closure then i
    else if s[i] == '\\' then StringQuoteEnd(s, i + 2, closure)
    else StringQuoteEnd(s, i + 1, closure)
  }

  method CloseStringQuote(s: string, start: nat, closure: char) returns (loc: nat)
    ensures loc == StringQuoteEnd(s, start + 1, closure)
  {
    loc := start + 1;
    while loc < |s|
      invariant start + 1 <= loc
      invariant StringQuoteEnd(s, loc, closure) == StringQuoteEnd(s, start + 1, closure)
    {
      if s[loc] == closure {
        break;
      }
      if s[loc] == '\\' {
        loc := loc + 1;
      }
      loc := loc + 1;
    }
  }

  function LiteralQuoteEnd(s: string, start: nat, closure: char): (k: nat)
    ensures start < |s| ==> start < k <= |s|
    ensures k < |s| ==> start < k && s[k] == closure
  {
    var k := Find(s, closure, start + 1);
    if k < |s| then k else |s|
  }

  /** Where the quoted run that opens at `i` ends. */
  function QuoteEnd(s: string, i: nat): (k: nat)
    requires i < |s| && IsQuote(s[i])
    ensures i < k
  {
    if s[i] == '"' then StringQuoteEnd(s, i + 1, '"') else LiteralQuoteEnd(s, i, s[i])
  }

  /** Recursive-descent reading from inside a bracket: the index of the mate of that bracket.
      Quoted runs are opaque, nested brackets close with their own mate, any other closer is
      an ordinary character, and a bracket that is never closed ends at the end of the text. */
  function Descend(s: string, i: nat, closer: char): (k: nat)
    ensures i < |s| ==> i <= k <= |s|
    ensures i >= |s| ==> k == |s|
    ensures k < |s| ==> s[k] == closer
    decreases |s| - i, 1
  {
    if i >= |s| then |s|
    else if s[i] == closer then i
    else Descend(s, PieceEnd(s, i), closer)
  }

  /** The index behind the piece that starts at `i`: a quoted run, a nested bracket, or one character. */
  function PieceEnd(s: string, i: nat): (k: nat)
    requires i < |s|
    ensures i < k
    decreases |s| - i, 0
  {
    if IsQuote(s[i]) then QuoteEnd(s, i) + 1
    else if IsOpener(s[i]) then Descend(s, i + 1, Mate(s[i])) + 1
    else i + 1
  }

  /** What remains to be read when the closers of several open brackets are still awaited, innermost last. */
  function Unwind(s: string, i: nat, closures: string): (k: nat)
    requires closures != []
    ensures i >= |s| ==> k == |s|
    decreases |closures|
  {
    var inner := Descend(s, i, closures[|closures| - 1]);
    if |closures| == 1 then inner else Unwind(s, inner + 1, closures[..|closures| - 1])
  }

  /** Opening a bracket: reading on with its mate pushed is reading past the nested bracket. */
  lemma UnwindPush(s: string, i: nat, closures: string)
    requires closures != [] && i < |s|
    requires IsOpener(s[i]) && s[i] != closures[|closures| - 1]
    ensures Unwind(s, i + 1, closures + [Mate(s[i])]) == Unwind(s, i, closures)
  {
    var pushed := closures + [Mate(s[i])];
    assert pushed[..|pushed| - 1] == closures;
    DescendStep(s, i, closures[|closures| - 1], Descend(s, i + 1, Mate(s[i])) + 1);
  }

  /** Closing the innermost of several brackets: reading goes on in the one around it. */
  lemma UnwindPop(s: string, i: nat, closures: string)
    requires |closures| > 1 && i < |s| && s[i] == closures[|closures| - 1]
    ensures Unwind(s, i + 1, closures[..|closures| - 1]) == Unwind(s, i, closures)
  {
  }

  /** A quoted run or an ordinary character is passed over. */
  lemma UnwindSkip(s: string, i: nat, closures: string, next: nat)
    requires closures != [] && IsCloser(closures[|closures| - 1]) && i < |s|
    requires s[i] != closures[|closures| - 1] && !IsOpener(s[i])
    requires next == if IsQuote(s[i]) then QuoteEnd(s, i) + 1 else i + 1
    ensures Unwind(s, next, closures) == Unwind(s, i, closures)
  {
    DescendStep(s, i, closures[|closures| - 1], next);
  }

  lemma UnwindPiece(s: string, i: nat, closures: string, loc: nat, awaited: string)
    requires closures != [] && IsCloser(closures[|closures| - 1]) && i < |s| && s[i] != closures[|closures| - 1]
    requires loc == if IsQuote(s[i]) then QuoteEnd(s, i) else i
    requires awaited == if IsOpener(s[i]) then closures + [Mate(s[i])] else closures
    ensures Unwind(s, loc + 1, awaited) == Unwind(s, i, closures)
  {
    if IsOpener(s[i]) {
      UnwindPush(s, i, closures);
    } else {
      UnwindSkip(s, i, closures, loc + 1);
    }
  }

  /** The value that `close_sequence` returns. */
  function SequenceEnd(s: string, start: nat, closure: char): nat {
    if closure == '"' then StringQuoteEnd(s, start + 1, closure)
    else if IsCloser(closure) then Descend(s, start + 1, closure)
    else LiteralQuoteEnd(s, start, closure)
  }

  /** The switch of the loop: a quoted run is passed over up to its last character, an opening bracket awaits its
      mate. */
  method EnterPiece(s: string, start: nat, closures: string) returns (loc: nat, awaited: string)
    requires start < |s|
    ensures loc == if IsQuote(s[start]) then QuoteEnd(s, start) else start
    ensures awaited == if IsOpener(s[start]) then closures + [Mate(s[start])] else closures
  {
    loc, awaited := start, closures;
    if s[start] == '"' {
      loc := CloseStringQuote(s, start, s[start]);
    } else if s[start] == '\'' || s[start] == '`' {
      loc := LiteralQuoteEnd(s, start, s[start]);
    } else if IsOpener(s[start]) {
      awaited := closures + [Mate(s[start])];
    }
  }

  method CloseSequence(s: string, start: nat, closure: char) returns (loc: nat)
    ensures loc == SequenceEnd(s, start, closure)
  {
    if closure == '"' {
      loc := CloseStringQuote(s, start, closure);
      return;
    }
    if !IsCloser(closure) {
      loc := LiteralQuoteEnd(s, start, closure);
      return;
    }
    var closures := [closure];
    loc := start + 1;
    while loc < |s|
      invariant start < loc
      invariant closures != [] && forall j :: 0 <= j < |closures| ==> IsCloser(closures[j])
      invariant Unwind(s, loc, closures) == Descend(s, start + 1, closure)
      decreases |s| - loc
    {
      ghost var at, before := loc, closures;
      if s[loc] == closures[|closures| - 1] {
        closures := closures[..|closures| - 1];
        if closures == [] {
          return;
        }
        UnwindPop(s, at, before);
      }
      loc, closures := EnterPiece(s, loc, closures);
      if s[at] != before[|before| - 1] {
        UnwindPiece(s, at, before, loc, closures);
      }
      loc := loc + 1;
    }
    if loc > |s| {
      loc := |s|;
    }
  }

  /** Text as it stands between a bracket and its mate, read as a list of pieces. */
  datatype Nest =
    | Done
    | Plain(c: char, rest: Nest)
    | Quoted(body: string, rest: Nest)
    | Literal(quote: char, body: string, rest: Nest)
    | Group(open: char, inner: Nest, rest: Nest)

  function Print(n: Nest): string {
    match n
    case Done => ""
    case Plain(c, rest) => [c] + Print(rest)
    case Quoted(body, rest) => ['"'] + body + ['"'] + Print(rest)
    case Literal(quote, body, rest) => [quote] + body + [quote] + Print(rest)
    case Group(open, inner, rest) => [open] + Print(inner) + [Mate(open)] + Print(rest)
  }

  /** No unescaped double quote, and no backslash left without the character it escapes. */
  predicate QuotedBody(body: string) {
    if body == [] then true
    else if body[0] == '\\' then |body| > 1 && QuotedBody(body[2..])
    else body[0] != '"' && QuotedBody(body[1..])
  }

  /** The grammar of what may stand between a bracket and its mate `closer`. */
  predicate WellNested(n: Nest, closer: char) {
    match n
    case Done => true
    case Plain(c, rest) => !IsBracketChar(c) && c != closer && WellNested(rest, closer)
    case Quoted(body, rest) => QuotedBody(body) && WellNested(rest, closer)
    case Literal(quote, body, rest) =>
      (quote == '\'' || quote == '`') && quote !in body && WellNested(rest, closer)
    case Group(open, inner, rest) => IsOpener(open) && WellNested(inner, Mate(open)) && WellNested(rest, closer)
  }

  /** A quoted body ends exactly at the quote that follows it, wherever it stands. */
  lemma {:induction false} QuotedBodyEnds(s: string, i: nat, body: string)
    requires QuotedBody(body)
    requires i + |body| < |s| && Holds(s, i, body) && s[i + |body|] == '"'
    ensures StringQuoteEnd(s, i, '"') == i + |body|
    decreases |body|
  {
    if body != [] {
      var step := if body[0] == '\\' then 2 else 1;
      assert s[i] == body[0];
      QuotedBodyEnds(s, i + step, body[step..]);
    }
  }

  lemma {:induction false} QuotedBodyRead(s: string, i: nat)
    requires StringQuoteEnd(s, i, '"') < |s|
    ensures QuotedBody(s[i..StringQuoteEnd(s, i, '"')])
    decreases |s| - i
  {
    var k := StringQuoteEnd(s, i, '"');
    if s[i] != '"' {
      var step := if s[i] == '\\' then 2 else 1;
      QuotedBodyRead(s, i + step);
      assert s[i..k][step..] == s[i + step..k];
    }
  }

  lemma {:induction false} LiteralBodyEnds(s: string, start: nat, body: string)
    requires start + |body| + 1 < |s| && Holds(s, start + 1, body)
    requires s[start] == s[start + 1 + |body|] && s[start] !in body
    ensures LiteralQuoteEnd(s, start, s[start]) == start + 1 + |body|
  {
    assert forall j :: start < j < start + 1 + |body| ==> s[j] == body[j - start - 1];
  }

  /** Where a known text stands, each of its parts stands at its own place. */
  lemma PartsInPlace(s: string, i: nat, open: char, body: string, close: char, rest: string, closer: char)
    requires Holds(s, i, [open] + body + [close] + rest + [closer])
    ensures i + 2 + |body| < |s| && s[i] == open && s[i + 1 + |body|] == close
    ensures Holds(s, i + 1, body) && Holds(s, i + 1, body + [close]) && Holds(s, i + 2 + |body|, rest + [closer])
  {
    var whole := [open] + body + [close] + rest + [closer];
    assert whole[0] == open && whole[1 + |body|] == close;
  }

  lemma CharacterInPlace(s: string, i: nat, c: char, rest: string, closer: char)
    requires Holds(s, i, [c] + rest + [closer])
    ensures i < |s| && s[i] == c && Holds(s, i + 1, rest + [closer])
  {
    assert ([c] + rest + [closer])[0] == c;
  }

  function Size(n: Nest): nat {
    match n
    case Done => 0
    case Plain(_, rest) => 1 + Size(rest)
    case Quoted(body, rest) => 2 + |body| + Size(rest)
    case Literal(_, body, rest) => 2 + |body| + Size(rest)
    case Group(_, inner, rest) => 2 + Size(inner) + Size(rest)
  }

  lemma {:induction false} PrintSize(n: Nest)
    ensures |Print(n)| == Size(n)
  {
    match n {
      case Done =>
      case Plain(_, rest) => PrintSize(rest);
      case Quoted(_, rest) => PrintSize(rest);
      case Literal(_, _, rest) => PrintSize(rest);
      case Group(_, inner, rest) =>
        PrintSize(inner);
        PrintSize(rest);
    }
  }

  /** `n` stands in `s` at `i`, piece by piece, with the awaited closer right behind it. */
  predicate StandsAt(s: string, i: nat, n: Nest, closer: char)
    decreases n
  {
    i < |s| &&
    match n
    case Done => s[i] == closer
    case Plain(c, rest) => s[i] == c && StandsAt(s, i + 1, rest, closer)
    case Quoted(body, rest) => QuoteStandsAt(s, i, '"', body) && StandsAt(s, i + 2 + |body|, rest, closer)
    case Literal(quote, body, rest) => QuoteStandsAt(s, i, quote, body) && StandsAt(s, i + 2 + |body|, rest, closer)
    case Group(open, inner, rest) =>
      s[i] == open && StandsAt(s, i + 1, inner, Mate(open)) && StandsAt(s, i + 2 + Size(inner), rest, closer)
  }

  predicate QuoteStandsAt(s: string, i: nat, quote: char, body: string) {
    i + 1 + |body| < |s| && s[i] == quote && Holds(s, i + 1, body) && s[i + 1 + |body|] == quote
  }

  /** `text` and then the closer stand at `i`. */
  predicate HoldsClosed(s: string, i: nat, text: string, closer: char) {
    Holds(s, i, text + [closer])
  }

  lemma PlainInPlace(s: string, i: nat, n: Nest, closer: char)
    requires n.Plain? && HoldsClosed(s, i, Print(n), closer)
    ensures i < |s| && s[i] == n.c && HoldsClosed(s, i + 1, Print(n.rest), closer)
  {
    CharacterInPlace(s, i, n.c, Print(n.rest), closer);
  }

  lemma QuotedInPlace(s: string, i: nat, n: Nest, closer: char)
    requires n.Quoted? && HoldsClosed(s, i, Print(n), closer)
    ensures QuoteStandsAt(s, i, '"', n.body) && HoldsClosed(s, i + 2 + |n.body|, Print(n.rest), closer)
  {
    PartsInPlace(s, i, '"', n.body, '"', Print(n.rest), closer);
  }

  lemma LiteralInPlace(s: string, i: nat, n: Nest, closer: char)
    requires n.Literal? && HoldsClosed(s, i, Print(n), closer)
    ensures QuoteStandsAt(s, i, n.quote, n.body) && HoldsClosed(s, i + 2 + |n.body|, Print(n.rest), closer)
  {
    PartsInPlace(s, i, n.quote, n.body, n.quote, Print(n.rest), closer);
  }

  lemma GroupInPlace(s: string, i: nat, n: Nest, closer: char)
    requires n.Group? && HoldsClosed(s, i, Print(n), closer)
    ensures i < |s| && s[i] == n.open && HoldsClosed(s, i + 1, Print(n.inner), Mate(n.open))
    ensures HoldsClosed(s, i + 2 + |Print(n.inner)|, Print(n.rest), closer)
  {
    PartsInPlace(s, i, n.open, Print(n.inner), Mate(n.open), Print(n.rest), closer);
  }

  lemma {:induction false} PrintStands(s: string, i: nat, n: Nest, closer: char)
    requires HoldsClosed(s, i, Print(n), closer)
    ensures StandsAt(s, i, n, closer)
    decreases n, 2
  {
    match n {
      case Done => assert ("" + [closer])[0] == closer;
      case Plain(_, _) => PlainStands(s, i, n, closer);
      case Quoted(_, _) => QuotedStands(s, i, n, closer);
      case Literal(_, _, _) => LiteralStands(s, i, n, closer);
      case Group(_, _, _) => GroupStands(s, i, n, closer);
    }
  }

  lemma {:induction false} PlainStands(s: string, i: nat, n: Nest, closer: char)
    requires n.Plain? && HoldsClosed(s, i, Print(n), closer)
    ensures StandsAt(s, i, n, closer)
    decreases n, 0
  {
    PlainInPlace(s, i, n, closer);
    PrintStands(s, i + 1, n.rest, closer);
  }

  lemma {:induction false} QuotedStands(s: string, i: nat, n: Nest, closer: char)
    requires n.Quoted? && HoldsClosed(s, i, Print(n), closer)
    ensures StandsAt(s, i, n, closer)
    decreases n, 0
  {
    QuotedInPlace(s, i, n, closer);
    PrintStands(s, i + 2 + |n.body|, n.rest, closer);
  }

  lemma {:induction false} LiteralStands(s: string, i: nat, n: Nest, closer: char)
    requires n.Literal? && HoldsClosed(s, i, Print(n), closer)
    ensures StandsAt(s, i, n, closer)
    decreases n, 0
  {
    LiteralInPlace(s, i, n, closer);
    PrintStands(s, i + 2 + |n.body|, n.rest, closer);
  }

  lemma {:induction false} GroupStands(s: string, i: nat, n: Nest, closer: char)
    requires n.Group? && HoldsClosed(s, i, Print(n), closer)
    ensures StandsAt(s, i, n, closer)
    decreases n, 1
  {
    assert s[i] == n.open && StandsAt(s, i + 1, n.inner, Mate(n.open)) by {
      InnerStands(s, i, n, closer);
    }
    assert StandsAt(s, i + 2 + Size(n.inner), n.rest, closer) by {
      BehindGroupStands(s, i, n, closer);
    }
  }

  lemma {:induction false} InnerStands(s: string, i: nat, n: Nest, closer: char)
    requires n.Group? && HoldsClosed(s, i, Print(n), closer)
    ensures s[i] == n.open && StandsAt(s, i + 1, n.inner, Mate(n.open))
    decreases n, 0
  {
    GroupInPlace(s, i, n, closer);
    PrintStands(s, i + 1, n.inner, Mate(n.open));
  }

  lemma {:induction false} BehindGroupStands(s: string, i: nat, n: Nest, closer: char)
    requires n.Group? && HoldsClosed(s, i, Print(n), closer)
    ensures StandsAt(s, i + 2 + Size(n.inner), n.rest, closer)
    decreases n, 0
  {
    GroupInPlace(s, i, n, closer);
    PrintSize(n.inner);
    PrintStands(s, i + 2 + |Print(n.inner)|, n.rest, closer);
  }

  /** The first piece of a nest is passed over as a whole. */
  ghost predicate PassesPiece(s: string, i: nat, n: Nest, closer: char)
    requires !n.Done?
  {
    i < |s| && s[i] != closer && PieceEnd(s, i) == i + Size(n) - Size(n.rest)
  }

  lemma PassesQuote(s: string, i: nat, n: Nest, closer: char)
    requires (n.Quoted? || n.Literal?) && IsCloser(closer) && WellNested(n, closer) && StandsAt(s, i, n, closer)
    ensures PassesPiece(s, i, n, closer)
  {
    if n.Quoted? {
      QuotedBodyEnds(s, i + 1, n.body);
    } else {
      LiteralBodyEnds(s, i, n.body);
    }
  }

  lemma {:induction false} PassesGroup(s: string, i: nat, n: Nest, closer: char)
    requires n.Group? && IsCloser(closer) && WellNested(n, closer) && StandsAt(s, i, n, closer)
    ensures PassesPiece(s, i, n, closer)
    decreases n, 0
  {
    DescendStands(s, i + 1, n.inner, Mate(n.open));
  }

  lemma {:induction false} Passes(s: string, i: nat, n: Nest, closer: char)
    requires !n.Done? && IsCloser(closer) && WellNested(n, closer) && StandsAt(s, i, n, closer)
    ensures PassesPiece(s, i, n, closer)
    decreases n, 1
  {
    if n.Group? {
      PassesGroup(s, i, n, closer);
    } else if !n.Plain? {
      PassesQuote(s, i, n, closer);
    }
  }

  lemma DescendStep(s: string, i: nat, closer: char, next: nat)
    requires i < |s| && s[i] != closer && PieceEnd(s, i) == next
    ensures Descend(s, i, closer) == Descend(s, next, closer)
  {
  }

  /** Reading stops exactly at the mate of a nest that stands there. */
  lemma {:induction false} DescendStands(s: string, i: nat, n: Nest, closer: char)
    requires IsCloser(closer) && WellNested(n, closer) && StandsAt(s, i, n, closer)
    ensures Descend(s, i, closer) == i + Size(n)
    decreases n, 2
  {
    if !n.Done? {
      var next := i + Size(n) - Size(n.rest);
      Passes(s, i, n, closer);
      DescendStands(s, next, n.rest, closer);
      DescendStep(s, i, closer, next);
    }
  }

  /** Reading a printed nest stops exactly at the mate that follows it, in any surrounding text. */
  lemma DescendPrinted(s: string, i: nat, n: Nest, closer: char)
    requires IsCloser(closer) && WellNested(n, closer) && HoldsClosed(s, i, Print(n), closer)
    ensures Descend(s, i, closer) == i + |Print(n)|
  {
    PrintSize(n);
    PrintStands(s, i, n, closer);
    DescendStands(s, i, n, closer);
  }

  lemma QuoteRead(s: string, i: nat, rest: Nest, closer: char) returns (n: Nest)
    requires i < |s| && IsQuote(s[i]) && QuoteEnd(s, i) < |s| && WellNested(rest, closer)
    ensures WellNested(n, closer) && Print(n) == s[i..QuoteEnd(s, i) + 1] + Print(rest)
  {
    var k := QuoteEnd(s, i);
    var body := s[i + 1..k];
    assert s[i..k + 1] == [s[i]] + body + [s[i]];
    if s[i] == '"' {
      QuotedBodyRead(s, i + 1);
      n := Quoted(body, rest);
    } else {
      n := Literal(s[i], body, rest);
    }
  }

  lemma GroupRead(s: string, i: nat, k: nat, inner: Nest, rest: Nest, closer: char) returns (n: Nest)
    requires i < k < |s| && IsOpener(s[i]) && s[k] == Mate(s[i])
    requires WellNested(inner, s[k]) && Print(inner) == s[i + 1..k] && WellNested(rest, closer)
    ensures WellNested(n, closer) && Print(n) == s[i..k + 1] + Print(rest)
  {
    n := Group(s[i], inner, rest);
    assert s[i..k + 1] == [s[i]] + s[i + 1..k] + [s[k]];
  }

  /** Conversely, whatever is skipped to reach a mate reads as a nest. */
  lemma {:induction false} DescendReads(s: string, i: nat, closer: char) returns (n: Nest)
    requires IsCloser(closer) && Descend(s, i, closer) < |s|
    ensures WellNested(n, closer) && Print(n) == s[i..Descend(s, i, closer)]
    decreases |s| - i, 1
  {
    var end := Descend(s, i, closer);
    if s[i] == closer {
      n := Done;
    } else {
      var next := PieceEnd(s, i);
      DescendStep(s, i, closer, next);
      var rest := DescendReads(s, next, closer);
      n := PieceRead(s, i, next, rest, closer);
      assert s[i..end] == s[i..next] + s[next..end];
    }
  }

  lemma {:induction false} PieceRead(s: string, i: nat, next: nat, rest: Nest, closer: char) returns (n: Nest)
    requires i < |s| && next == PieceEnd(s, i) <= |s| && s[i] != closer && WellNested(rest, closer)
    ensures WellNested(n, closer) && Print(n) == s[i..next] + Print(rest)
    decreases |s| - i, 0
  {
    if IsQuote(s[i]) {
      n := QuoteRead(s, i, rest, closer);
    } else if IsOpener(s[i]) {
      var inner := DescendReads(s, i + 1, Mate(s[i]));
      n := GroupRead(s, i, next - 1, inner, rest, closer);
    } else {
      n := PlainRead(s, i, rest, closer);
    }
  }

  lemma PlainRead(s: string, i: nat, rest: Nest, closer: char) returns (n: Nest)
    requires i < |s| && !IsBracketChar(s[i]) && s[i] != closer && WellNested(rest, closer)
    ensures WellNested(n, closer) && Print(n) == s[i..i + 1] + Print(rest)
  {
    n := Plain(s[i], rest);
    assert s[i..i + 1] == [s[i]];
  }

  /** The text strictly between `start` and `k` is the nest `n`. */
  ghost predicate ReadsAs(s: string, start: nat, k: nat, n: Nest, closer: char)
    requires start < k <= |s|
  {
    WellNested(n, closer) && Print(n) == s[start + 1..k]
  }

  /** `close_sequence` on a bracket finds index `k` exactly when `k` holds its mate and the text
      between the two belongs to the nesting grammar; the mate is therefore unique. */
  lemma SequenceEndIsTheMate(s: string, start: nat, closer: char, k: nat)
    requires IsCloser(closer) && start < k < |s|
    ensures SequenceEnd(s, start, closer) == k
       <==> s[k] == closer && exists n :: ReadsAs(s, start, k, n, closer)
  {
    if SequenceEnd(s, start, closer) == k {
      var n := DescendReads(s, start + 1, closer);
      assert ReadsAs(s, start, k, n, closer);
    }
    if s[k] == closer && exists n :: ReadsAs(s, start, k, n, closer) {
      var n :| ReadsAs(s, start, k, n, closer);
      MateIsFound(s, start, k, n, closer);
    }
  }

  lemma MateIsFound(s: string, start: nat, k: nat, n: Nest, closer: char)
    requires IsCloser(closer) && start < k < |s| && s[k] == closer && ReadsAs(s, start, k, n, closer)
    ensures SequenceEnd(s, start, closer) == k
  {
    var text := s[start + 1..k];
    assert Holds(s, start + 1, text + [closer]);
    DescendPrinted(s, start + 1, n, closer);
  }

  /** An unclosed bracket gives the length of the text, and so does everything that is not found. */
  lemma SequenceEndUnclosed(s: string, start: nat, closer: char)
    requires IsCloser(closer) && start < |s|
    ensures SequenceEnd(s, start, closer) == |s|
       <==> forall k: nat, n :: start < k < |s| && s[k] == closer ==> !ReadsAs(s, start, k, n, closer)
  {
    forall k: nat, n | start < k < |s| && s[k] == closer && ReadsAs(s, start, k, n, closer)
      ensures SequenceEnd(s, start, closer) == k
    {
      SequenceEndIsTheMate(s, start, closer, k);
    }
    var e := SequenceEnd(s, start, closer);
    if e < |s| {
      SequenceEndIsTheMate(s, start, closer, e);
    }
  }
}
