/** Strings, results and the small library calls that the console parser is built from.
    A C++ `char` is one byte: a `string` here is a sequence of bytes, and the operations
    that depend on the byte range say so with `IsBytes`. */
module Text {

  datatype Result<+T> = Ok(value: T) | Err(message: string)

  datatype Option<+T> = None | Some(value: T)

  predicate IsByte(c: char) {
    c as int < 256
  }

  predicate IsBytes(s: string) {
    forall i :: 0 <= i < |s| ==> IsByte(s[i])
  }

  /** `std::isspace` in the classic locale. */
  predicate IsSpace(c: char) {
    c == ' ' || c == '\t' || c == '\n' || c == '\r' || c == '\U{0B}' || c == '\U{0C}'
  }

  /** The first index at or after `from` that holds `c`, or the length (`std::string::find`). */
  function Find(s: string, c: char, from: nat): (k: nat)
    ensures k <= |s| || k == from
    ensures from <= k
    ensures k < |s| ==> s[k] == c
    ensures forall j :: from <= j < k && j < |s| ==> s[j] != c
    decreases |s| - from
  {
    if from >= |s| then from
    else if s[from] == c then from
    else Find(s, c, from + 1)
  }

  /** `std::string::operator[]`: the terminating zero stands behind the last byte. */
  function At(s: string, i: nat): char {
    if i < |s| then s[i] else '\0'
  }

  /** `text` stands in `s` at `i`. */
  predicate Holds(s: string, i: nat, text: string) {
    i + |text| <= |s| && forall j :: i <= j < i + |text| ==> s[j] == text[j - i]
  }

  /** Where two texts stand one behind the other, each stands at its own place. */
  lemma HoldsParts(s: string, i: nat, head: string, tail: string)
    requires Holds(s, i, head + tail)
    ensures Holds(s, i, head) && Holds(s, i + |head|, tail)
  {
    var both := head + tail;
    forall j | i <= j < i + |head| ensures s[j] == head[j - i] {
      assert both[j - i] == head[j - i];
    }
    forall j | i + |head| <= j < i + |both| ensures s[j] == tail[j - i - |head|] {
      assert both[j - i] == tail[j - i - |head|];
    }
  }

  function LTrim(s: string): (t: string)
    ensures |t| <= |s|
    ensures t != [] ==> !IsSpace(t[0])
  {
    if s != [] && IsSpace(s[0]) then LTrim(s[1..]) else s
  }

  function RTrim(s: string): (t: string)
    ensures |t| <= |s|
    ensures t != [] ==> !IsSpace(t[|t| - 1])
    ensures t <= s
  {
    if s != [] && IsSpace(s[|s| - 1]) then RTrim(s[..|s| - 1]) else s
  }

  function Trim(s: string): (t: string)
    ensures |t| <= |s|
  {
    LTrim(RTrim(s))
  }

  lemma {:induction false} RTrimKeepsEnd(s: string)
    requires s != [] && !IsSpace(s[|s| - 1])
    ensures RTrim(s) == s
  {
  }

  lemma TrimIdentity(s: string)
    requires s != [] ==> !IsSpace(s[0]) && !IsSpace(s[|s| - 1])
    ensures Trim(s) == s
  {
  }

  lemma Associate(a: string, b: string, c: string)
    ensures (a + b) + c == a + (b + c)
  {
  }

  /** The end of the run of characters other than white space that starts at `i`. */
  function WordEnd(s: string, i: nat): (k: nat)
    requires i <= |s|
    ensures i <= k <= |s| && (k < |s| ==> IsSpace(s[k]))
    ensures forall j :: i <= j < k ==> !IsSpace(s[j])
    decreases |s| - i
  {
    if i == |s| || IsSpace(s[i]) then i else WordEnd(s, i + 1)
  }

  predicate IsWord(w: string) {
    w != [] && forall i :: 0 <= i < |w| ==> !IsSpace(w[i])
  }

  /** What repeated `stream >> word` reads. */
  function Words(s: string): (ws: seq<string>)
    ensures forall i :: 0 <= i < |ws| ==> IsWord(ws[i])
    decreases |s|
  {
    if s == [] then []
    else if IsSpace(s[0]) then Words(s[1..])
    else
      var k := WordEnd(s, 0);
      [s[..k]] + Words(s[k..])
  }
}
