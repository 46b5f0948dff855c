/** `streamOutAsParagraph`: help text wrapped to a width, with a prefix on every line.
    Main results: `ParagraphKeepsWords`, `ParagraphFitsWidth` and `BreaksAreNeeded`. */
module Paragraphs {
  import opened Text

  /** The width and the line prefix of a paragraph. */
  datatype Layout = Layout(width: nat, prefix: string)

  /** What one run of the word loop writes when `written` characters stand on the line already. */
  function WrapTail(l: Layout, written: nat, ws: seq<string>): string
    decreases |ws|
  {
    if ws == [] then []
    else if written > 0 && |ws[0]| + 1 + written > l.width then
      ("\n" + l.prefix + ws[0]) + WrapTail(l, |ws[0]|, ws[1..])
    else if written == 0 then ws[0] + WrapTail(l, |ws[0]|, ws[1..])
    else (" " + ws[0]) + WrapTail(l, written + |ws[0]| + 1, ws[1..])
  }

  function Lead(l: Layout, skipPrefix: bool): string {
    if skipPrefix then [] else l.prefix
  }

  /** The whole output: `getline` splits the text, and a line that ends in a newline is followed by one. */
  function Paragraph(l: Layout, text: string, skipPrefix: bool): string
    decreases |text|, 1
  {
    if text == [] then []
    else
      var k := Find(text, '\n', 0);
      Lead(l, skipPrefix) + WrapTail(l, 0, Words(text[..k])) + Below(l, text, k)
  }

  /** The output for what follows the line break at `k`, with that break. */
  function Below(l: Layout, text: string, k: nat): string
    decreases |text|, 0
  {
    if k < |text| then "\n" + Paragraph(l, text[k + 1..], false) else []
  }

  method StreamOutAsParagraph(text: string, l: Layout, skipPrefixOnFirstLine: bool) returns (out: string)
    ensures out == Paragraph(l, text, skipPrefixOnFirstLine)
  {
    out := [];
    var rest, skip := text, skipPrefixOnFirstLine;
    while rest != []
      invariant out + Paragraph(l, rest, skip) == Paragraph(l, text, skipPrefixOnFirstLine)
      decreases |rest|
    {
      out, rest := StreamLine(l, rest, skip, out);
      skip := false;
    }
  }

  /** One round of the outer loop: the output so far, and the text that `getline` leaves. */
  method StreamLine(l: Layout, text: string, skip: bool, before: string) returns (out: string, rest: string)
    requires text != []
    ensures |rest| < |text|
    ensures out + Paragraph(l, rest, false) == before + Paragraph(l, text, skip)
  {
    var k := Find(text, '\n', 0);
    var line := text[..k];
    out := before;
    if !skip {
      out := out + l.prefix;
    }
    assert out == before + Lead(l, skip);
    out := StreamWords(l, Words(line), out);
    FourParts(before, Lead(l, skip), WrapTail(l, 0, Words(line)), Below(l, text, k));
    rest := [];
    if k < |text| {
      rest := text[k + 1..];
      Associate(out, "\n", Paragraph(l, rest, false));
      out := out + "\n";
    }
  }

  lemma FourParts(a: string, b: string, c: string, d: string)
    ensures a + (b + c + d) == ((a + b) + c) + d
  {
  }

  /** The loop over the words of one line. */
  method StreamWords(l: Layout, ws: seq<string>, before: string) returns (out: string)
    requires forall i :: 0 <= i < |ws| ==> IsWord(ws[i])
    ensures out == before + WrapTail(l, 0, ws)
  {
    out := before;
    var charsWritten: nat := 0;
    for i := 0 to |ws|
      invariant out + WrapTail(l, charsWritten, ws[i..]) == before + WrapTail(l, 0, ws)
    {
      var word := ws[i];
      assert ws[i..][1..] == ws[i + 1..];
      ghost var was, written := out, charsWritten;
      if charsWritten > 0 && |word| + 1 + charsWritten > l.width {
        out := out + ("\n" + l.prefix);
        charsWritten := 0;
      }
      if charsWritten == 0 {
        out := out + word;
        charsWritten := charsWritten + |word|;
      } else {
        out := out + (" " + word);
        charsWritten := charsWritten + |word| + 1;
      }
      WordStep(l, was, written, ws[i..], out, charsWritten);
    }
  }

  lemma WordStep(l: Layout, was: string, written: nat, ws: seq<string>, out: string, now: nat)
    requires ws != [] && IsWord(ws[0])
    requires if written > 0 && |ws[0]| + 1 + written > l.width then
               out == was + ("\n" + l.prefix) + ws[0] && now == |ws[0]|
             else if written == 0 then out == was + ws[0] && now == |ws[0]|
             else out == was + (" " + ws[0]) && now == written + |ws[0]| + 1
    ensures out + WrapTail(l, now, ws[1..]) == was + WrapTail(l, written, ws)
  {
    var tail := WrapTail(l, now, ws[1..]);
    if written > 0 && |ws[0]| + 1 + written > l.width {
      Associate(was, "\n" + l.prefix, ws[0]);
      Associate(was, "\n" + l.prefix + ws[0], tail);
    } else if written == 0 {
      Associate(was, ws[0], tail);
    } else {
      Associate(was, " " + ws[0], tail);
    }
  }

  // ----- the words stay -----

  predicate AllSpace(s: string) {
    forall i :: 0 <= i < |s| ==> IsSpace(s[i])
  }

  lemma {:induction false} SpaceHasNoWords(s: string)
    requires AllSpace(s)
    ensures Words(s) == []
    decreases |s|
  {
    if s != [] {
      SpaceHasNoWords(s[1..]);
    }
  }

  lemma {:induction false} WordEndAppend(a: string, b: string, i: nat)
    requires i <= |a| && (WordEnd(a, i) < |a| || b == [] || IsSpace(b[0]))
    ensures WordEnd(a + b, i) == WordEnd(a, i)
    decreases |a| - i
  {
    if i < |a| && !IsSpace(a[i]) {
      WordEndAppend(a, b, i + 1);
    }
  }

  /** Texts that meet at white space have the words of both. */
  lemma {:induction false} WordsAppend(a: string, b: string)
    requires a == [] || b == [] || IsSpace(a[|a| - 1]) || IsSpace(b[0])
    ensures Words(a + b) == Words(a) + Words(b)
    decreases |a|
  {
    var ab := a + b;
    if a == [] {
      assert ab == b;
    } else if IsSpace(a[0]) {
      assert ab[1..] == a[1..] + b;
      WordsAppend(a[1..], b);
    } else {
      var k := WordEnd(a, 0);
      FirstWordAppend(a, b);
      WordsAppend(a[k..], b);
      assert [a[..k]] + (Words(a[k..]) + Words(b)) == ([a[..k]] + Words(a[k..])) + Words(b);
    }
  }

  lemma FirstWordAppend(a: string, b: string)
    requires a != [] && !IsSpace(a[0]) && (b == [] || IsSpace(a[|a| - 1]) || IsSpace(b[0]))
    ensures Words(a + b) == [a[..WordEnd(a, 0)]] + Words(a[WordEnd(a, 0)..] + b)
  {
    var ab, k := a + b, WordEnd(a, 0);
    WordEndAppend(a, b, 0);
    assert ab[0] == a[0] && ab[..k] == a[..k] && ab[k..] == a[k..] + b;
    FirstWord(ab, k);
  }

  lemma FirstWord(s: string, k: nat)
    requires s != [] && !IsSpace(s[0]) && k == WordEnd(s, 0)
    ensures k > 0 && Words(s) == [s[..k]] + Words(s[k..])
  {
  }

  lemma WordIsOneWord(w: string)
    requires IsWord(w)
    ensures Words(w) == [w]
  {
    assert WordEnd(w, 0) == |w| && w[..|w|] == w && w[|w|..] == [];
  }

  /** The tail starts with white space unless the line is empty. */
  lemma TailStarts(l: Layout, written: nat, ws: seq<string>)
    requires written > 0 && WrapTail(l, written, ws) != []
    ensures IsSpace(WrapTail(l, written, ws)[0])
  {
  }

  lemma {:induction false} WrapTailWords(l: Layout, written: nat, ws: seq<string>)
    requires AllSpace(l.prefix) && forall i :: 0 <= i < |ws| ==> IsWord(ws[i])
    ensures Words(WrapTail(l, written, ws)) == ws
    decreases |ws|
  {
    if ws != [] {
      var w := ws[0];
      var breaks := written > 0 && |w| + 1 + written > l.width;
      var gap := if breaks then "\n" + l.prefix else if written == 0 then [] else " ";
      var now := if breaks || written == 0 then |w| else written + |w| + 1;
      var tail := WrapTail(l, now, ws[1..]);
      assert WrapTail(l, written, ws) == (gap + w) + tail;
      WrapTailWords(l, now, ws[1..]);
      if tail != [] {
        TailStarts(l, now, ws[1..]);
      }
      GapWordTail(gap, w, tail);
      assert [w] + ws[1..] == ws;
    }
  }

  lemma GapWordTail(gap: string, w: string, tail: string)
    requires AllSpace(gap) && IsWord(w) && (tail == [] || IsSpace(tail[0]))
    ensures Words((gap + w) + tail) == [w] + Words(tail)
  {
    SpaceHasNoWords(gap);
    WordsAppend(gap, w);
    WordIsOneWord(w);
    WordsAppend(gap + w, tail);
  }

  lemma WordsThreeParts(lead: string, body: string, rest: string)
    requires AllSpace(lead) && (rest == [] || IsSpace(rest[0]))
    ensures Words(lead + body + rest) == Words(body) + Words(rest)
  {
    SpaceHasNoWords(lead);
    WordsAppend(lead, body);
    assert [] + Words(body) == Words(body);
    WordsAppend(lead + body, rest);
  }

  /** The output has the same words as the text, in the same order. */
  lemma {:induction false} ParagraphKeepsWords(l: Layout, text: string, skipPrefix: bool)
    requires AllSpace(l.prefix)
    ensures Words(Paragraph(l, text, skipPrefix)) == Words(text)
    decreases |text|
  {
    if text != [] {
      var k := Find(text, '\n', 0);
      WrapTailWords(l, 0, Words(text[..k]));
      WordsThreeParts(Lead(l, skipPrefix), WrapTail(l, 0, Words(text[..k])), Below(l, text, k));
      if k < |text| {
        ParagraphKeepsWords(l, text[k + 1..], false);
        NewlineHasNoWords(Paragraph(l, text[k + 1..], false));
        NewlineHasNoWords(text[k + 1..]);
      }
      SplitWords(text, k);
    }
  }

  lemma NewlineHasNoWords(s: string)
    ensures Words("\n" + s) == Words(s)
  {
    assert ("\n" + s)[1..] == s;
  }

  lemma SplitWords(text: string, k: nat)
    requires k <= |text| && (k < |text| ==> text[k] == '\n')
    ensures k < |text| ==> Words(text) == Words(text[..k]) + Words("\n" + text[k + 1..])
    ensures k == |text| ==> Words(text) == Words(text[..k]) + Words([])
  {
    assert text == text[..k] + text[k..];
    WordsAppend(text[..k], text[k..]);
    if k < |text| {
      assert text[k..] == "\n" + text[k + 1..];
    } else {
      assert text[k..] == [];
    }
  }

  // ----- the lines fit -----

  /** The lines of a text, as `getline` reads them. */
  function Lines(s: string): seq<string>
    decreases |s|
  {
    if s == [] then []
    else
      var k := Find(s, '\n', 0);
      [s[..k]] + (if k < |s| then Lines(s[k + 1..]) else [])
  }

  /** What one text line becomes, as a list of lines without their prefix: `current` is the line being filled. */
  function Fill(width: nat, current: string, ws: seq<string>): (bodies: seq<string>)
    ensures bodies != []
    decreases |ws|
  {
    if ws == [] then [current]
    else if current == [] then Fill(width, ws[0], ws[1..])
    else if |ws[0]| + 1 + |current| > width then [current] + Fill(width, ws[0], ws[1..])
    else Fill(width, current + " " + ws[0], ws[1..])
  }

  /** The bodies with the prefix between them. */
  function Stack(l: Layout, bodies: seq<string>): string
    requires bodies != []
  {
    if |bodies| == 1 then bodies[0] else bodies[0] + (("\n" + l.prefix) + Stack(l, bodies[1..]))
  }

  lemma {:induction false} WrapIsStack(l: Layout, current: string, ws: seq<string>)
    requires forall i :: 0 <= i < |ws| ==> IsWord(ws[i])
    ensures current + WrapTail(l, |current|, ws) == Stack(l, Fill(l.width, current, ws))
    decreases |ws|
  {
    if ws == [] {
      assert current + [] == current;
    } else {
      var w := ws[0];
      assert IsWord(w);
      if current == [] {
        WrapIsStack(l, w, ws[1..]);
        assert [] + (w + WrapTail(l, |w|, ws[1..])) == w + WrapTail(l, |w|, ws[1..]);
      } else if |w| + 1 + |current| > l.width {
        WrapIsStack(l, w, ws[1..]);
        WrapBreaks(l, current, ws);
      } else {
        WrapIsStack(l, current + " " + w, ws[1..]);
        WrapGoesOn(l, current, ws);
      }
    }
  }

  lemma WrapBreaks(l: Layout, current: string, ws: seq<string>)
    requires ws != [] && current != [] && |ws[0]| + 1 + |current| > l.width
    requires ws[0] + WrapTail(l, |ws[0]|, ws[1..]) == Stack(l, Fill(l.width, ws[0], ws[1..]))
    ensures current + WrapTail(l, |current|, ws) == Stack(l, Fill(l.width, current, ws))
  {
    var w := ws[0];
    StackOnTop(l, current, Fill(l.width, w, ws[1..]));
    Associate("\n" + l.prefix, w, WrapTail(l, |w|, ws[1..]));
  }

  lemma WrapGoesOn(l: Layout, current: string, ws: seq<string>)
    requires ws != [] && current != [] && |ws[0]| + 1 + |current| <= l.width
    ensures current + WrapTail(l, |current|, ws)
         == current + " " + ws[0] + WrapTail(l, |current| + |ws[0]| + 1, ws[1..])
  {
    var tail := WrapTail(l, |current| + |ws[0]| + 1, ws[1..]);
    assert WrapTail(l, |current|, ws) == (" " + ws[0]) + tail;
    FourInOrder(current, " ", ws[0], tail);
  }

  lemma FourInOrder(a: string, b: string, c: string, d: string)
    ensures a + ((b + c) + d) == a + b + c + d
  {
    Associate(a, b + c, d);
    Associate(a, b, c);
  }

  lemma StackOnTop(l: Layout, current: string, bodies: seq<string>)
    requires bodies != []
    ensures Stack(l, [current] + bodies) == current + (("\n" + l.prefix) + Stack(l, bodies))
  {
    assert ([current] + bodies)[1..] == bodies;
  }

  /** A line body is short enough, or a single word; and it holds no line break. */
  predicate GoodBody(width: nat, b: string) {
    (|b| <= width || IsWord(b)) && '\n' !in b
  }

  lemma {:induction false} FillIsGood(width: nat, current: string, ws: seq<string>)
    requires GoodBody(width, current) && forall i :: 0 <= i < |ws| ==> IsWord(ws[i])
    ensures forall b <- Fill(width, current, ws) :: GoodBody(width, b)
    decreases |ws|
  {
    if ws != [] {
      assert IsWord(ws[0]) && GoodBody(width, ws[0]);
      if current == [] || |ws[0]| + 1 + |current| > width {
        FillIsGood(width, ws[0], ws[1..]);
      } else {
        FillIsGood(width, current + " " + ws[0], ws[1..]);
      }
    }
  }

  /** A line of the output: the prefix, then a good body. */
  predicate GoodLine(l: Layout, line: string) {
    l.prefix <= line && GoodBody(l.width, line[|l.prefix|..])
  }

  predicate AllGood(l: Layout, text: string) {
    forall line <- Lines(text) :: GoodLine(l, line)
  }

  lemma OneLine(l: Layout, line: string)
    requires '\n' !in line && GoodLine(l, line)
    ensures AllGood(l, line)
  {
    if line != [] {
      assert Find(line, '\n', 0) == |line| && line[..|line|] == line;
      assert Lines(line) == [line];
    }
  }

  lemma LineAbove(l: Layout, line: string, below: string)
    requires '\n' !in line && GoodLine(l, line) && AllGood(l, below)
    ensures AllGood(l, line + ("\n" + below))
  {
    var s := line + ("\n" + below);
    assert forall j :: 0 <= j < |line| ==> s[j] == line[j];
    assert s[|line|] == '\n' && s[..|line|] == line && s[|line| + 1..] == below;
    assert Find(s, '\n', 0) == |line|;
    assert Lines(s) == [line] + Lines(below);
  }

  lemma BodyBehindPrefix(l: Layout, body: string)
    requires '\n' !in l.prefix && GoodBody(l.width, body)
    ensures '\n' !in l.prefix + body && GoodLine(l, l.prefix + body)
  {
    assert (l.prefix + body)[|l.prefix|..] == body;
  }

  /** Good bodies stacked on top of `foot`, which is nothing or a line break and more good lines. */
  lemma {:induction false} StackIsGood(l: Layout, bodies: seq<string>, foot: string)
    requires bodies != [] && '\n' !in l.prefix
    requires forall b <- bodies :: GoodBody(l.width, b)
    requires foot == [] || (foot[0] == '\n' && AllGood(l, foot[1..]))
    ensures AllGood(l, l.prefix + Stack(l, bodies) + foot)
    decreases |bodies|
  {
    var first := l.prefix + bodies[0];
    assert bodies[0] in bodies;
    BodyBehindPrefix(l, bodies[0]);
    if |bodies| > 1 {
      StackIsGood(l, bodies[1..], foot);
      var below := l.prefix + Stack(l, bodies[1..]) + foot;
      LineAbove(l, first, below);
      StackSplits(l, bodies, foot);
    } else if foot == [] {
      OneLine(l, first);
      assert first + foot == first;
    } else {
      LineAbove(l, first, foot[1..]);
      assert foot == "\n" + foot[1..];
    }
  }

  lemma StackSplits(l: Layout, bodies: seq<string>, foot: string)
    requires |bodies| > 1
    ensures l.prefix + Stack(l, bodies) + foot
         == (l.prefix + bodies[0]) + ("\n" + (l.prefix + Stack(l, bodies[1..]) + foot))
  {
    Regroup(l.prefix, bodies[0], Stack(l, bodies[1..]), foot);
  }

  lemma Regroup(p: string, body: string, rest: string, foot: string)
    ensures p + (body + (("\n" + p) + rest)) + foot == (p + body) + ("\n" + (p + rest + foot))
  {
    var tail := ("\n" + p) + rest;
    Associate(p, body, tail);
    Associate(p + body, tail, foot);
    Associate("\n", p, rest);
    Associate("\n", p + rest, foot);
  }

  lemma WrappedLine(l: Layout, line: string)
    ensures WrapTail(l, 0, Words(line)) == Stack(l, Fill(l.width, [], Words(line)))
    ensures forall b <- Fill(l.width, [], Words(line)) :: GoodBody(l.width, b)
  {
    WrapIsStack(l, [], Words(line));
    FillIsGood(l.width, [], Words(line));
    assert [] + WrapTail(l, 0, Words(line)) == WrapTail(l, 0, Words(line));
  }

  /** Every physical line, behind its prefix, is at most as wide as the paragraph or holds a single word. When the
      prefix of the first line is left to the caller, this is so once the caller has written it. */
  lemma {:induction false} ParagraphFitsWidth(l: Layout, text: string)
    requires '\n' !in l.prefix
    ensures AllGood(l, Paragraph(l, text, false))
    ensures text != [] ==> AllGood(l, l.prefix + Paragraph(l, text, true))
    decreases |text|
  {
    if text != [] {
      var k := Find(text, '\n', 0);
      WrappedLine(l, text[..k]);
      if k < |text| {
        ParagraphFitsWidth(l, text[k + 1..]);
        assert Below(l, text, k)[1..] == Paragraph(l, text[k + 1..], false);
      }
      StackIsGood(l, Fill(l.width, [], Words(text[..k])), Below(l, text, k));
      var body := WrapTail(l, 0, Words(text[..k]));
      assert l.prefix + ([] + body + Below(l, text, k)) == l.prefix + body + Below(l, text, k);
    }
  }

  /** The first word of the line below would not have fitted. */
  predicate BreakNeeded(width: nat, above: string, below: string) {
    Words(below) != [] && |above| + 1 + |Words(below)[0]| > width
  }

  predicate AllBreaksNeeded(width: nat, bodies: seq<string>) {
    |bodies| < 2 || (BreakNeeded(width, bodies[0], bodies[1]) && AllBreaksNeeded(width, bodies[1..]))
  }

  /** A line is only broken where the next word would not have fitted. */
  lemma {:induction false} BreaksAreNeeded(width: nat, current: string, ws: seq<string>)
    requires forall i :: 0 <= i < |ws| ==> IsWord(ws[i])
    requires current == [] || Words(current) != []
    ensures AllBreaksNeeded(width, Fill(width, current, ws))
    ensures current != [] ==>
      Words(Fill(width, current, ws)[0]) != [] && Words(Fill(width, current, ws)[0])[0] == Words(current)[0]
    decreases |ws|
  {
    if ws != [] {
      var w := ws[0];
      assert IsWord(w);
      WordIsOneWord(w);
      if current == [] {
        BreaksAreNeeded(width, w, ws[1..]);
      } else if |w| + 1 + |current| > width {
        BreaksAreNeeded(width, w, ws[1..]);
        var below := Fill(width, w, ws[1..]);
        assert ([current] + below)[1..] == below;
      } else {
        LongerLine(current, w);
        BreaksAreNeeded(width, current + " " + w, ws[1..]);
      }
    }
  }

  lemma LongerLine(current: string, w: string)
    requires IsWord(w) && Words(current) != []
    ensures Words(current + " " + w) == Words(current) + [w]
  {
    assert current + " " + w == current + (" " + w);
    assert (" " + w)[1..] == w;
    WordIsOneWord(w);
    WordsAppend(current, " " + w);
  }
}
