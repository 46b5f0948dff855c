/** `split_up`: cuts a text into items at a delimiter, keeping quoted and bracketed runs whole. */
module Splitting {
  import opened Text
  import opened Brackets

  /** The lambda `find_ws`; the zero delimiter stands for white space. */
  predicate IsDelimiter(c: char, delimiter: char) {
    if delimiter == '\0' then IsSpace(c) else c == delimiter
  }

  function FindDelimiter(s: string, delimiter: char, from: nat): (k: nat)
    requires from <= |s|
    ensures from <= k <= |s|
    ensures k < |s| ==> IsDelimiter(s[k], delimiter)
    ensures forall j :: from <= j < k ==> !IsDelimiter(s[j], delimiter)
    decreases |s| - from
  {
    if from == |s| || IsDelimiter(s[from], delimiter) then from else FindDelimiter(s, delimiter, from + 1)
  }

  /** Where splitting resumes behind a closed run: past a delimiter or an opening character, but at any other one. */
  function ResumeAt(s: string, end: nat, delimiter: char): (next: nat)
    ensures end < next <= end + 2
  {
    var follow := At(s, end + 1);
    if IsDelimiter(follow, delimiter) || IsBracketChar(follow) then end + 2 else end + 1
  }

  function Rest(s: string, next: nat): (t: string)
    ensures next > 0 && s != [] ==> |t| < |s|
    ensures next >= |s| ==> t == []
  {
    if next < |s| then Trim(s[next..]) else []
  }

  function SplitTrimmed(s: string, delimiter: char): (items: seq<string>)
    ensures s != [] ==> items != []
    ensures forall i :: 0 <= i < |items| ==> |items[i]| <= |s|
    decreases |s|
  {
    if s == [] then []
    else if IsBracketChar(s[0]) then
      var end := SequenceEnd(s, 0, Mate(s[0]));
      if end >= |s| then [s]
      else [s[..end + 1]] + SplitTrimmed(Rest(s, ResumeAt(s, end, delimiter)), delimiter)
    else
      var k := FindDelimiter(s, delimiter, 0);
      if k < |s| then [s[..k]] + SplitTrimmed(Rest(s, k + 1), delimiter) else [s]
  }

  function SplitUp(s: string, delimiter: char): (items: seq<string>)
    ensures forall i :: 0 <= i < |items| ==> |items[i]| <= |s|
  {
    SplitTrimmed(Trim(s), delimiter)
  }

  method SplitUpLoop(input: string, delimiter: char) returns (output: seq<string>)
    ensures output == SplitUp(input, delimiter)
  {
    var str := Trim(input);
    output := [];
    while str != []
      invariant output + SplitTrimmed(str, delimiter) == SplitUp(input, delimiter)
      decreases |str|
    {
      var item, rest := TakeItem(str, delimiter);
      AppendItem(output, item, SplitTrimmed(Trim(rest), delimiter));
      output := output + [item];
      str := Trim(rest);
    }
  }

  /** One round of the loop: the first item of a trimmed text, and what is left of the text. */
  method TakeItem(str: string, delimiter: char) returns (item: string, rest: string)
    requires str != []
    ensures |rest| < |str|
    ensures SplitTrimmed(str, delimiter) == [item] + SplitTrimmed(Trim(rest), delimiter)
  {
    item, rest := str, [];
    if IsBracketChar(str[0]) {
      var end := CloseSequence(str, 0, Mate(str[0]));
      if end < |str| {
        item := str[..end + 1];
        var next := ResumeAt(str, end, delimiter);
        if next < |str| {
          rest := str[next..];
        }
      }
    } else {
      var k := FindDelimiter(str, delimiter, 0);
      if k < |str| {
        item := str[..k];
        rest := str[k + 1..];
      }
    }
  }

  lemma AppendItem(output: seq<string>, item: string, rest: seq<string>)
    ensures output + ([item] + rest) == output + [item] + rest
  {
  }

  // ----- splitting what was joined with `, ` -----

  /** A text that starts with a quote which closes at its own last character, whatever follows. */
  ghost predicate SelfClosing(c: string) {
    && |c| >= 2 && IsQuote(c[0]) && !IsSpace(c[|c| - 1])
    && forall suffix: string {:trigger c + suffix} :: SequenceEnd(c + suffix, 0, c[0]) == |c| - 1
  }

  /** A text without white space, quotes, brackets, delimiters or comment marks. */
  predicate Bare(c: string) {
    && c != []
    && forall i :: 0 <= i < |c| ==>
      !IsSpace(c[i]) && !IsBracketChar(c[i]) && c[i] != ',' && c[i] != ']' && c[i] != '#'
  }

  ghost predicate Separable(c: string) {
    SelfClosing(c) || Bare(c)
  }

  lemma SeparableEnds(c: string)
    requires Separable(c)
    ensures c != [] && !IsSpace(c[0]) && !IsSpace(c[|c| - 1])
  {
  }

  /** A separable text alone splits into itself, at any delimiter. */
  lemma SplitAlone(c: string, delimiter: char)
    requires Separable(c)
    requires delimiter == '\0' || delimiter == ',' || delimiter == '#'
    ensures SplitUp(c, delimiter) == [c]
  {
    TrimIdentity(c);
    if SelfClosing(c) {
      assert c + "" == c;
      assert SequenceEnd(c, 0, Mate(c[0])) == |c| - 1;
      var nothing := Rest(c, ResumeAt(c, |c| - 1, delimiter));
      assert nothing == [];
      assert SplitTrimmed(c, delimiter) == [c[..|c|]] + SplitTrimmed(nothing, delimiter);
      assert c[..|c|] == c;
    } else {
      assert FindDelimiter(c, delimiter, 0) == |c|;
    }
  }

  /** A separable text followed by `, ` and more is the first item, and splitting goes on behind it. */
  lemma SplitFirst(c: string, rest: string)
    requires Separable(c)
    requires rest != [] && !IsSpace(rest[0]) && !IsSpace(rest[|rest| - 1])
    ensures SplitTrimmed(c + (", " + rest), ',') == [c] + SplitTrimmed(rest, ',')
  {
    var s := c + (", " + rest);
    RestBehindComma(c, rest);
    if SelfClosing(c) {
      SelfClosingEnds(c, ", " + rest);
      SplitAtQuote(s, c, rest);
    } else {
      BareUntilComma(c, s);
      SplitAtComma(s, c, rest);
    }
  }

  lemma SelfClosingEnds(c: string, suffix: string)
    requires SelfClosing(c)
    ensures SequenceEnd(c + suffix, 0, c[0]) == |c| - 1 && IsQuote(c[0])
  {
  }

  lemma BareUntilComma(c: string, s: string)
    requires Bare(c) && c <= s
    requires |c| < |s| && s[|c|] == ','
    ensures !IsBracketChar(s[0]) && FindDelimiter(s, ',', 0) == |c|
  {
    assert forall j :: 0 <= j < |c| ==> s[j] == c[j] && s[j] != ',';
  }

  lemma RestBehindComma(c: string, rest: string)
    requires c != [] && rest != [] && !IsSpace(rest[0]) && !IsSpace(rest[|rest| - 1])
    ensures StartsWithItem(c + (", " + rest), c, rest)
  {
    var s, cut := c + (", " + rest), " " + rest;
    assert s[|c| + 1..] == cut;
    RTrimKeepsEnd(cut);
    assert cut[1..] == rest;
    assert LTrim(rest) == rest;
  }

  /** `c` stands at the start of `s`, and `rest` is left behind the comma that follows it. */
  predicate StartsWithItem(s: string, c: string, rest: string) {
    c != [] && |c| < |s| && s[|c|] == ',' && s[..|c|] == c && s[0] == c[0] && Rest(s, |c| + 1) == rest
  }

  lemma SplitAtQuote(s: string, c: string, rest: string)
    requires StartsWithItem(s, c, rest) && IsQuote(s[0]) && SequenceEnd(s, 0, s[0]) == |c| - 1
    ensures SplitTrimmed(s, ',') == [c] + SplitTrimmed(rest, ',')
  {
    assert ResumeAt(s, |c| - 1, ',') == |c| + 1;
  }

  lemma SplitAtComma(s: string, c: string, rest: string)
    requires StartsWithItem(s, c, rest) && !IsBracketChar(s[0]) && FindDelimiter(s, ',', 0) == |c|
    ensures SplitTrimmed(s, ',') == [c] + SplitTrimmed(rest, ',')
  {
  }

  /** `, ` in front of each of the texts. */
  function JoinTail(cs: seq<string>): string {
    if cs == [] then [] else ", " + cs[0] + JoinTail(cs[1..])
  }

  function Join(cs: seq<string>): string
    requires cs != []
  {
    cs[0] + JoinTail(cs[1..])
  }

  lemma {:induction false} JoinEnds(cs: seq<string>)
    requires cs != [] && forall i :: 0 <= i < |cs| ==> Separable(cs[i])
    ensures Join(cs) != [] && !IsSpace(Join(cs)[0]) && !IsSpace(Join(cs)[|Join(cs)| - 1])
  {
    SeparableEnds(cs[0]);
    if |cs| > 1 {
      JoinEnds(cs[1..]);
      JoinStep(cs);
    } else {
      assert Join(cs) == cs[0];
    }
  }

  lemma {:induction false} SplitTrimmedJoin(cs: seq<string>)
    requires cs != [] && forall i :: 0 <= i < |cs| ==> Separable(cs[i])
    ensures SplitTrimmed(Join(cs), ',') == cs
  {
    if |cs| == 1 {
      SplitJoinOne(cs);
    } else {
      SplitTrimmedJoin(cs[1..]);
      SplitJoinStep(cs, cs[1..]);
    }
  }

  lemma SplitJoinOne(cs: seq<string>)
    requires |cs| == 1 && Separable(cs[0])
    ensures SplitTrimmed(Join(cs), ',') == cs
  {
    SplitAlone(cs[0], ',');
    SeparableEnds(cs[0]);
    TrimIdentity(cs[0]);
    assert Join(cs) == cs[0] && cs == [cs[0]];
  }

  lemma SplitJoinStep(cs: seq<string>, rest: seq<string>)
    requires |cs| > 1 && rest == cs[1..] && forall i :: 0 <= i < |cs| ==> Separable(cs[i])
    requires SplitTrimmed(Join(rest), ',') == rest
    ensures SplitTrimmed(Join(cs), ',') == cs
  {
    JoinStep(cs);
    JoinEnds(rest);
    SplitFirst(cs[0], Join(rest));
  }

  /** Splitting undoes joining. */
  lemma SplitJoin(cs: seq<string>)
    requires cs != [] && forall i :: 0 <= i < |cs| ==> Separable(cs[i])
    ensures SplitTrimmed(Join(cs), ',') == cs == SplitUp(Join(cs), ',')
  {
    JoinEnds(cs);
    TrimIdentity(Join(cs));
    SplitTrimmedJoin(cs);
  }

  lemma JoinStep(cs: seq<string>)
    requires |cs| > 1
    ensures Join(cs) == cs[0] + (", " + Join(cs[1..]))
  {
    Associate(", ", cs[1], JoinTail(cs[2..]));
    assert cs[1..][1..] == cs[2..];
  }
}
