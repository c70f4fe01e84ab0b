/** The observable rules of the regular expressions git-submodules.py searches each
    line with (`re.findall(...)[0]`, i.e. the first match of an unanchored search).
    A line is one element of a file as iterated by Python, without its line break:
    every pattern here treats a trailing line break as whitespace, and `.` never has
    to cross one, so leaving it out changes no result. */
module Patterns {
  import opened Outcomes

  /** Python's `\s` in a str pattern, and what `str.strip()` removes: the characters
      for which `str.isspace()` holds. */
  predicate IsSpace(c: char) {
    || ('\t' <= c <= '\r')
    || ('\U{1C}' <= c <= '\U{1F}')
    || c == ' ' || c == '\U{85}' || c == '\U{A0}' || c == '\U{1680}'
    || ('\U{2000}' <= c <= '\U{200A}')
    || c == '\U{2028}' || c == '\U{2029}' || c == '\U{202F}' || c == '\U{205F}' || c == '\U{3000}'
  }

  predicate AllSpaces(s: string) {
    forall i | 0 <= i < |s| :: IsSpace(s[i])
  }

  /** `w` occurs in `s` at index `i`. */
  predicate OccursAt(w: string, s: string, i: int) {
    0 <= i <= |s| - |w| && s[i..i + |w|] == w
  }

  /** `w` occurs somewhere in `s`. */
  ghost predicate Occurs(w: string, s: string) {
    exists i :: OccursAt(w, s, i)
  }

  /** The first index at or after `i` that does not hold a space. */
  function SpacesFrom(s: string, i: nat): (n: nat)
    requires i <= |s|
    ensures i <= n <= |s|
    ensures forall k | i <= k < n :: IsSpace(s[k])
    ensures n == |s| || !IsSpace(s[n])
    decreases |s| - i
  {
    if i < |s| && IsSpace(s[i]) then SpacesFrom(s, i + 1) else i
  }

  /** The index just past the last character before `j` that is not a space. */
  function SpacesBefore(s: string, j: nat): (n: nat)
    requires j <= |s|
    ensures n <= j
    ensures forall k | n <= k < j :: IsSpace(s[k])
    ensures n == 0 || !IsSpace(s[n - 1])
  {
    if j > 0 && IsSpace(s[j - 1]) then SpacesBefore(s, j - 1) else j
  }

  /** `s` without its trailing spaces (`str.rstrip()`). */
  function TrimRight(s: string): (r: string)
    ensures |r| <= |s| && r == s[..|r|]
    ensures forall k | |r| <= k < |s| :: IsSpace(s[k])
    ensures r == [] || !IsSpace(r[|r| - 1])
  {
    s[..SpacesBefore(s, |s|)]
  }

  /** `r` is `s` with the spaces before index `i` and after `r` removed. */
  ghost predicate StripsTo(s: string, i: int, r: string) {
    && 0 <= i && i + |r| <= |s| && r == s[i..i + |r|]
    && (forall k | 0 <= k < i :: IsSpace(s[k]))
    && (forall k | i + |r| <= k < |s| :: IsSpace(s[k]))
  }

  /** `str.strip()`: spaces removed at both ends. */
  function Strip(s: string): (r: string)
    ensures r == [] || (!IsSpace(r[0]) && !IsSpace(r[|r| - 1]))
    ensures exists i :: StripsTo(s, i, r)
  {
    var i := SpacesFrom(s, 0);
    var r := TrimRight(s[i..]);
    assert StripsTo(s, i, r) by {
      assert forall k | i + |r| <= k < |s| :: s[k] == s[i..][k - i];
    }
    r
  }

  /** The index `SpacesFrom` finds is the only one with its properties. */
  lemma SpacesFromIs(s: string, i: nat, n: nat)
    requires i <= n <= |s|
    requires forall k | i <= k < n :: IsSpace(s[k])
    requires n == |s| || !IsSpace(s[n])
    ensures SpacesFrom(s, i) == n
  {
  }

  /** A captured value of `([^\s].*[^\s])`: two characters or more, no space at either end. */
  predicate IsValue(v: string) {
    |v| >= 2 && !IsSpace(v[0]) && !IsSpace(v[|v| - 1])
  }

  /** The part of `KEY\s*=\s*([^\s].*[^\s])\s*` after KEY: the greedy spaces, an `=`,
      the greedy spaces, then everything up to the last non-space character. */
  function ValueAfterKey(t: string): (v: Option<string>)
    ensures v.Some? ==> IsValue(v.value)
  {
    var i := SpacesFrom(t, 0);
    if i == |t| || t[i] != '=' then None
    else
      var j := SpacesFrom(t, i + 1);
      var e := SpacesBefore(t, |t|);
      if j + 2 <= e then Some(t[j..e]) else None
  }

  function MatchKeyFrom(line: string, key: string, q: nat): (v: Option<string>)
    ensures v.Some? ==> IsValue(v.value)
    decreases |line| - q
  {
    if q + |key| > |line| then None
    else if line[q..q + |key|] == key && ValueAfterKey(line[q + |key|..]).Some? then
      ValueAfterKey(line[q + |key|..])
    else MatchKeyFrom(line, key, q + 1)
  }

  /** First match of `\s*KEY\s*=\s*([^\s].*[^\s])\s*` in `line`: the leftmost occurrence of
      KEY whose tail matches decides the captured value. */
  function MatchKey(line: string, key: string): (v: Option<string>)
    ensures v.Some? ==> IsValue(v.value)
  {
    MatchKeyFrom(line, key, 0)
  }

  /** The largest `b >= 1` below `n` where `u[b..b + 2] == "\"]"`: where the greedy `(.+)`
      of a section header stops. */
  function LastCloseBelow(u: string, n: nat): (b: Option<nat>)
    requires n <= |u|
    ensures b.Some? ==> 1 <= b.value && b.value + 1 < |u| && b.value < n
                        && u[b.value] == '"' && u[b.value + 1] == ']'
    ensures b.None? ==> forall k | 1 <= k < n && k + 1 < |u| :: !(u[k] == '"' && u[k + 1] == ']')
    ensures b.Some? ==> forall k | b.value < k < n && k + 1 < |u| :: !(u[k] == '"' && u[k + 1] == ']')
  {
    if n <= 1 then None
    else if n < |u| && u[n - 1] == '"' && u[n] == ']' then Some(n - 1)
    else LastCloseBelow(u, n - 1)
  }

  /** The part of `WORD\s*"(.+)"\]` after WORD. */
  function SectionAfterWord(t: string): (p: Option<string>)
    ensures p.Some? ==> |p.value| >= 1
  {
    var i := SpacesFrom(t, 0);
    if i == |t| || t[i] != '"' then None
    else
      var u := t[i + 1..];
      match LastCloseBelow(u, |u|)
      case Some(b) => Some(u[..b])
      case None => None
  }

  function MatchSectionFrom(line: string, word: string, q: nat): (p: Option<string>)
    ensures p.Some? ==> |p.value| >= 1
    decreases |line| - q
  {
    if q + |word| > |line| then None
    else if line[q..q + |word|] == word && SectionAfterWord(line[q + |word|..]).Some? then
      SectionAfterWord(line[q + |word|..])
    else MatchSectionFrom(line, word, q + 1)
  }

  /** First match of `\s*\[submodule\s*"(.+)"\]` (WORD = `[submodule`) or
      `\s*\[remote\s*"(.+)"\]` (WORD = `[remote`) in `line`. */
  function MatchSection(line: string, word: string): (p: Option<string>)
    ensures p.Some? ==> |p.value| >= 1
  {
    MatchSectionFrom(line, word, 0)
  }

  const SubmoduleWord := "[submodule"
  const RemoteWord := "[remote"

  /** `\s*\[` finds a match: the line holds a `[` somewhere. */
  predicate OpensSection(line: string) {
    '[' in line
  }

  /** A character of the class `[a-z0-9]`. */
  predicate IsHashChar(c: char) {
    'a' <= c <= 'z' || '0' <= c <= '9'
  }

  function RunLength(s: string, i: nat): (n: nat)
    requires i <= |s|
    ensures i + n <= |s|
    ensures forall k | i <= k < i + n :: IsHashChar(s[k])
    ensures i + n == |s| || !IsHashChar(s[i + n])
    decreases |s| - i
  {
    if i < |s| && IsHashChar(s[i]) then 1 + RunLength(s, i + 1) else 0
  }

  function FirstHashIndex(s: string, i: nat): (k: nat)
    requires i <= |s|
    ensures i <= k <= |s|
    ensures forall j | i <= j < k :: !IsHashChar(s[j])
    ensures k < |s| ==> IsHashChar(s[k])
    decreases |s| - i
  {
    if i == |s| || IsHashChar(s[i]) then i else FirstHashIndex(s, i + 1)
  }

  /** `w` is the leftmost maximal run of `[a-z0-9]` characters in `s`, found at index `i`. */
  ghost predicate FirstRunAt(s: string, i: int, w: string) {
    && 0 <= i && i + |w| <= |s| && w == s[i..i + |w|]
    && |w| >= 1 && (forall j | 0 <= j < |w| :: IsHashChar(w[j]))
    && (forall j | 0 <= j < i :: !IsHashChar(s[j]))
    && (i + |w| == |s| || !IsHashChar(s[i + |w|]))
  }

  /** First match of `([a-z0-9]+)`: the leftmost maximal run of lower-case letters and digits. */
  function FirstRun(s: string): (r: Option<string>)
    ensures r.None? <==> forall j | 0 <= j < |s| :: !IsHashChar(s[j])
    ensures r.Some? ==> exists i :: FirstRunAt(s, i, r.value)
  {
    var i := FirstHashIndex(s, 0);
    if i == |s| then None
    else
      var w := s[i..i + RunLength(s, i)];
      assert FirstRunAt(s, i, w);
      Some(w)
  }

  // ---- Facts about lines of the shape the descriptor writer produces ----

  /** No match of a pattern without an occurrence of its literal word. */
  lemma {:induction false} NoKeyWithoutWord(line: string, key: string, q: nat)
    requires !Occurs(key, line)
    ensures MatchKeyFrom(line, key, q) == None
    decreases |line| - q
  {
    if q + |key| <= |line| {
      assert !OccursAt(key, line, q);
      NoKeyWithoutWord(line, key, q + 1);
    }
  }

  lemma {:induction false} NoSectionWithoutWord(line: string, word: string, q: nat)
    requires !Occurs(word, line)
    ensures MatchSectionFrom(line, word, q) == None
    decreases |line| - q
  {
    if q + |word| <= |line| {
      assert !OccursAt(word, line, q);
      NoSectionWithoutWord(line, word, q + 1);
    }
  }

  /** A prefix that never holds the first letter of `w` cannot start an occurrence of it. */
  lemma OccursPastPrefix(w: string, prefix: string, s: string)
    requires |w| >= 1 && w[0] !in prefix
    requires !Occurs(w, s)
    ensures !Occurs(w, prefix + s)
  {
    var line := prefix + s;
    forall i | 0 <= i <= |line| - |w|
      ensures !OccursAt(w, line, i)
    {
      if i < |prefix| {
        assert line[i..i + |w|][0] == prefix[i] && prefix[i] in prefix;
      } else {
        assert line[i..i + |w|] == s[i - |prefix|..i - |prefix| + |w|];
        assert !OccursAt(w, s, i - |prefix|);
      }
    }
  }

  /** ` = v` after a key gives back exactly `v` when `v` is a value. */
  lemma ValueAfterEquals(v: string)
    requires IsValue(v)
    ensures ValueAfterKey(" = " + v) == Some(v)
  {
    var t := " = " + v;
    SpacesFromIs(t, 0, 1);
    SpacesFromIs(t, 2, 3);
    assert t[|t| - 1] == v[|v| - 1];
    assert SpacesBefore(t, |t|) == |t|;
    assert t[3..|t|] == v;
  }

  lemma TrimNothing(s: string)
    requires s != [] && !IsSpace(s[|s| - 1])
    ensures TrimRight(s) == s
  {
    assert SpacesBefore(s, |s|) == |s|;
  }

  /** `PAD KEY = v`, with PAD all spaces, gives back exactly `v` when `v` is a value. */
  lemma {:induction false} KeyLine(pad: string, key: string, v: string, q: nat)
    requires AllSpaces(pad) && |key| >= 1 && !IsSpace(key[0]) && IsValue(v)
    requires q <= |pad|
    ensures MatchKeyFrom(pad + key + " = " + v, key, q) == Some(v)
    decreases |pad| - q
  {
    var line := pad + key + " = " + v;
    if q < |pad| {
      assert line[q..q + |key|][0] == pad[q];
      KeyLine(pad, key, v, q + 1);
    } else {
      KeyLineAtKey(pad, key, v);
    }
  }

  lemma KeyLineAtKey(pad: string, key: string, v: string)
    requires |key| >= 1 && IsValue(v)
    ensures MatchKeyFrom(pad + key + " = " + v, key, |pad|) == Some(v)
  {
    var line := pad + key + (" = " + v);
    assert line == pad + key + " = " + v;
    var q := |pad|;
    assert line[q..q + |key|] == key;
    var t := line[q + |key|..];
    assert t == " = " + v;
    ValueAfterEquals(v);
    assert ValueAfterKey(t) == Some(v);
    assert MatchKeyFrom(line, key, q) == ValueAfterKey(t);
  }

  /** `WORD "p"]` gives back exactly `p` when `p` is not empty, whatever `p` holds. */
  lemma SectionLine(word: string, p: string)
    requires |p| >= 1
    ensures MatchSection(word + " \"" + p + "\"]", word) == Some(p)
  {
    var line := word + " \"" + p + "\"]";
    assert line[0..|word|] == word;
    var t := line[|word|..];
    assert t == " \"" + p + "\"]";
    SpacesFromIs(t, 0, 1);
    var u := t[2..];
    assert u == p + "\"]";
    assert LastCloseBelow(u, |u|) == Some(|p|);
    assert u[..|p|] == p;
  }
}
