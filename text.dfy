/**
 * The handful of Python string operations the analysis pipeline relies on:
 * `str.lower`, `str.isupper`, `str.strip`, `str.split()`, `str.split(sep)`,
 * `sep.join`, `str.endswith`, `str.replace(old, "")`, the `in` substring test
 * and `re.findall(r'\w+', ...)`.
 *
 * Character classes follow Python's Unicode tables restricted to the Latin-1
 * range (code points below U+0100), which covers the Spanish legal texts the
 * program reads; every character above U+00FF is treated as uncased,
 * non-space and not a word character.
 */
module Text {

  /** `str.isspace` for one character. */
  predicate IsSpace(c: char) {
    c == ' ' || ('\t' <= c <= '\r') || ('\U{1C}' <= c <= '\U{1F}') || c == '\U{85}' || c == '\U{A0}'
  }

  /** Upper-case letters (category Lu): A-Z and the Latin-1 capitals except the multiplication sign. */
  predicate IsUpperChar(c: char) {
    ('A' <= c <= 'Z') || ('\U{C0}' <= c <= '\U{DE}' && c != '\U{D7}')
  }

  /** Lower-case letters, including the ordinal indicators and the micro sign, which Python counts as lower case. */
  predicate IsLowerChar(c: char) {
    ('a' <= c <= 'z') || c == '\U{AA}' || c == '\U{B5}' || c == '\U{BA}'
    || ('\U{DF}' <= c <= '\U{FF}' && c != '\U{F7}')
  }

  /** The `\w` class of a Unicode regular expression: letters, digits, other numerics and the underscore. */
  predicate IsWordChar(c: char) {
    ('0' <= c <= '9') || ('A' <= c <= 'Z') || ('a' <= c <= 'z') || c == '_'
    || c == '\U{AA}' || c == '\U{B2}' || c == '\U{B3}' || c == '\U{B5}' || c == '\U{B9}' || c == '\U{BA}'
    || ('\U{BC}' <= c <= '\U{BE}')
    || ('\U{C0}' <= c <= '\U{FF}' && c != '\U{D7}' && c != '\U{F7}')
  }

  function LowerChar(c: char): (r: char)
    ensures IsUpperChar(c) ==> IsLowerChar(r)
    ensures !IsUpperChar(c) ==> r == c
  {
    if IsUpperChar(c) then (c as int + 32) as char else c
  }

  /** `str.lower`: maps every character on its own, so the length is kept. */
  function Lower(s: string): (r: string)
    ensures |r| == |s|
    ensures forall i :: 0 <= i < |s| ==> r[i] == LowerChar(s[i])
  {
    seq(|s|, i requires 0 <= i < |s| => LowerChar(s[i]))
  }

  lemma LowerAppend(s: string, t: string)
    ensures Lower(s + t) == Lower(s) + Lower(t)
  {
  }

  /** `str.isupper`: no lower-case character and at least one upper-case one. */
  predicate IsUpper(s: string) {
    (forall i :: 0 <= i < |s| ==> !IsLowerChar(s[i])) && (exists i :: 0 <= i < |s| && IsUpperChar(s[i]))
  }

  /** Number of whitespace characters at the start of `s`. */
  function LeadingSpaces(s: string): (k: nat)
    ensures k <= |s|
    ensures forall i :: 0 <= i < k ==> IsSpace(s[i])
    ensures k < |s| ==> !IsSpace(s[k])
  {
    if s == [] || !IsSpace(s[0]) then 0 else 1 + LeadingSpaces(s[1..])
  }

  /** Number of whitespace characters at the end of `s`. */
  function TrailingSpaces(s: string): (k: nat)
    ensures k <= |s|
    ensures forall i :: |s| - k <= i < |s| ==> IsSpace(s[i])
    ensures k < |s| ==> !IsSpace(s[|s| - k - 1])
  {
    if s == [] || !IsSpace(s[|s| - 1]) then 0 else 1 + TrailingSpaces(s[..|s| - 1])
  }

  /** `str.strip()`: the leading whitespace is cut, then the trailing whitespace of what is left. */
  function Strip(s: string): string {
    var i := LeadingSpaces(s);
    var j := |s| - TrailingSpaces(s[i..]);
    s[i..j]
  }

  /** The stripped text is a slice of the input with only whitespace cut off at both ends. */
  lemma StripSpec(s: string)
    ensures exists i, j :: 0 <= i <= j <= |s| && Strip(s) == s[i..j]
                           && (forall k :: 0 <= k < i ==> IsSpace(s[k]))
                           && (forall k :: j <= k < |s| ==> IsSpace(s[k]))
    ensures Strip(s) == [] || (!IsSpace(Strip(s)[0]) && !IsSpace(Strip(s)[|Strip(s)| - 1]))
    ensures Strip(s) == [] <==> forall k :: 0 <= k < |s| ==> IsSpace(s[k])
  {
    var i := LeadingSpaces(s);
    var t := TrailingSpaces(s[i..]);
    var j := |s| - t;
    assert forall k :: j <= k < |s| ==> s[k] == s[i..][k - i];
    assert Strip(s) == s[i..j];
  }

  /** Position of the first `c` in `s`, or `|s|` when there is none. */
  function IndexOf(s: string, c: char): (r: nat)
    ensures r <= |s|
    ensures r < |s| ==> s[r] == c
    ensures forall k :: 0 <= k < r ==> s[k] != c
  {
    if s == [] then 0 else if s[0] == c then 0 else 1 + IndexOf(s[1..], c)
  }

  /** `s.split(sep)` for a one-character separator: always at least one piece. */
  function Split(s: string, sep: char): (r: seq<string>)
    ensures |r| >= 1
    decreases |s|
  {
    var i := IndexOf(s, sep);
    if i == |s| then [s] else [s[..i]] + Split(s[i + 1..], sep)
  }

  /** `sep.join(parts)`. */
  function Join(parts: seq<string>, sep: string): string {
    if |parts| == 0 then "" else if |parts| == 1 then parts[0] else parts[0] + sep + Join(parts[1..], sep)
  }

  /** Joining the pieces of a split with the same separator gives the text back. */
  lemma {:induction false} JoinSplit(s: string, sep: char)
    ensures Join(Split(s, sep), [sep]) == s
    decreases |s|
  {
    var i := IndexOf(s, sep);
    if i < |s| {
      var head, rest := s[..i], s[i + 1..];
      var tail := Split(rest, sep);
      assert Split(s, sep) == [head] + tail;
      JoinSplit(rest, sep);
      assert ([head] + tail)[1..] == tail;
      assert Join([head] + tail, [sep]) == head + [sep] + Join(tail, [sep]);
      assert s == head + [sep] + rest;
    }
  }

  /** No piece of a split holds the separator. */
  lemma {:induction false} SplitPieces(s: string, sep: char)
    ensures forall p :: p in Split(s, sep) ==> sep !in p
    decreases |s|
  {
    var i := IndexOf(s, sep);
    if i < |s| {
      SplitPieces(s[i + 1..], sep);
      assert Split(s, sep) == [s[..i]] + Split(s[i + 1..], sep);
    }
  }

  /** The substring test `sub in s`. */
  predicate Contains(s: string, sub: string)
    decreases |s|
  {
    sub <= s || (s != [] && Contains(s[1..], sub))
  }

  /** `sub` occurs in `s` starting at position `i`. */
  predicate OccursAt(s: string, sub: string, i: nat) {
    i + |sub| <= |s| && s[i..i + |sub|] == sub
  }

  /** `Contains` agrees with the textbook definition: `sub` occurs at some position of `s`. */
  lemma {:induction false} ContainsIff(s: string, sub: string)
    ensures Contains(s, sub) <==> exists i: nat :: OccursAt(s, sub, i)
    decreases |s|
  {
    if sub <= s {
      assert OccursAt(s, sub, 0);
    } else if s == [] {
    } else {
      ContainsIff(s[1..], sub);
      if exists i: nat :: OccursAt(s, sub, i) {
        var i: nat :| OccursAt(s, sub, i);
        assert i != 0;
        assert OccursAt(s[1..], sub, i - 1);
      }
      if Contains(s[1..], sub) {
        var i: nat :| OccursAt(s[1..], sub, i);
        assert OccursAt(s, sub, i + 1);
      }
    }
  }

  /** Text added on either side never removes an occurrence. */
  lemma ContainsExtend(s: string, pre: string, post: string, sub: string)
    requires Contains(s, sub)
    ensures Contains(pre + s + post, sub)
  {
    ContainsIff(s, sub);
    var i: nat :| OccursAt(s, sub, i);
    assert (pre + s + post)[|pre| + i..|pre| + i + |sub|] == s[i..i + |sub|];
    assert OccursAt(pre + s + post, sub, |pre| + i);
    ContainsIff(pre + s + post, sub);
  }

  /** `s.endswith(suffix)`. */
  predicate EndsWith(s: string, suffix: string) {
    |suffix| <= |s| && s[|s| - |suffix|..] == suffix
  }

  /** `s.replace(pat, "")`: every non-overlapping occurrence, scanning left to right, is deleted. */
  function RemoveAll(s: string, pat: string): (r: string)
    ensures |r| <= |s|
    ensures pat == [] || !Contains(s, pat) ==> r == s
    decreases |s|
  {
    if pat == [] || |s| < |pat| then s
    else if pat <= s then RemoveAll(s[|pat|..], pat)
    else [s[0]] + RemoveAll(s[1..], pat)
  }

  /** Which characters a run is made of. */
  datatype CharClass = WordChars | NonSpaceChars

  predicate InClass(cls: CharClass, c: char) {
    match cls
    case WordChars => IsWordChar(c)
    case NonSpaceChars => !IsSpace(c)
  }

  /** Length of the longest prefix of `s` whose characters are all in `cls`. */
  function LeadingRun(s: string, cls: CharClass): (k: nat)
    ensures k <= |s|
    ensures forall i :: 0 <= i < k ==> InClass(cls, s[i])
    ensures k < |s| ==> !InClass(cls, s[k])
  {
    if s == [] || !InClass(cls, s[0]) then 0 else 1 + LeadingRun(s[1..], cls)
  }

  /** The maximal runs of characters of class `cls`, left to right. */
  function Runs(s: string, cls: CharClass): seq<string>
    decreases |s|
  {
    if s == [] then []
    else if !InClass(cls, s[0]) then Runs(s[1..], cls)
    else
      var k := LeadingRun(s, cls);
      [s[..k]] + Runs(s[k..], cls)
  }

  /** Every run is non-empty and made of class characters; there is a run exactly when `s` has a class character. */
  lemma {:induction false} RunsSpec(s: string, cls: CharClass)
    ensures forall w :: w in Runs(s, cls) ==> w != [] && forall i :: 0 <= i < |w| ==> InClass(cls, w[i])
    ensures Runs(s, cls) != [] <==> exists i :: 0 <= i < |s| && InClass(cls, s[i])
    decreases |s|
  {
    if s != [] {
      if !InClass(cls, s[0]) {
        RunsSpec(s[1..], cls);
        if exists i :: 0 <= i < |s| && InClass(cls, s[i]) {
          var i :| 0 <= i < |s| && InClass(cls, s[i]);
          assert s[1..][i - 1] == s[i];
        }
      } else {
        var k := LeadingRun(s, cls);
        RunsSpec(s[k..], cls);
      }
    }
  }

  /** `re.findall(r'\w+', s)`. */
  function WordTokens(s: string): seq<string> {
    Runs(s, WordChars)
  }

  /** `s.split()` with no argument: the whitespace-separated words. */
  function SplitWhitespace(s: string): seq<string> {
    Runs(s, NonSpaceChars)
  }
}
