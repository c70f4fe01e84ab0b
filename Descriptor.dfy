/** The `.gitsubmodules` descriptor as values: the record a GitSubmodule object holds,
    the line-by-line meaning `parse_all` gives a file, and the lines `print_to` writes.
    The objects and the loops that build them are in module Submodules; their
    contracts are stated with the functions here. */
module Descriptor {
  import opened Outcomes
  import opened Patterns

  /** The four fields of a GitSubmodule object. */
  datatype Record = Record(path: string, sources: seq<string>, commit: string, enabled: bool)

  /** What `GitSubmodule(path)` starts with: no source, commit "HEAD", enabled. */
  function NewRecord(path: string): Record {
    Record(path, [], "HEAD", true)
  }

  predicate NoDuplicates<T(==)>(s: seq<T>) {
    forall i, j | 0 <= i < j < |s| :: s[i] != s[j]
  }

  /** The source list after `add_source(x)`. */
  function Appended(xs: seq<string>, x: string): (ys: seq<string>)
    ensures x in ys && |ys| >= |xs| && ys[..|xs|] == xs
    ensures |ys| == if x in xs then |xs| else |xs| + 1
    ensures forall y :: y in ys <==> y in xs || y == x
    ensures NoDuplicates(xs) ==> NoDuplicates(ys)
  {
    if x in xs then xs else xs + [x]
  }

  /** The source list after `add_source` of each of `ss` in turn. */
  function AppendedAll(xs: seq<string>, ss: seq<string>): (ys: seq<string>)
    ensures |ys| >= |xs| && ys[..|xs|] == xs
    ensures forall y :: y in ys <==> y in xs || y in ss
    ensures NoDuplicates(xs) ==> NoDuplicates(ys)
  {
    if ss == [] then xs
    else Appended(AppendedAll(xs, ss[..|ss| - 1]), ss[|ss| - 1])
  }

  /** The index of the first occurrence of `x` in `ss`. */
  function IndexOf(ss: seq<string>, x: string): (k: nat)
    requires x in ss
    ensures k < |ss| && ss[k] == x && forall j | 0 <= j < k :: ss[j] != x
  {
    var n := |ss| - 1;
    if x in ss[..n] then IndexOf(ss[..n], x) else n
  }

  /** Sources added one by one to an empty list keep the order of their first
      occurrences: of two listed sources, the earlier one first occurs earlier. */
  lemma {:induction false} AppendedAllFirstOrder(ss: seq<string>, i: nat, j: nat)
    requires i < j < |AppendedAll([], ss)|
    ensures IndexOf(ss, AppendedAll([], ss)[i]) < IndexOf(ss, AppendedAll([], ss)[j])
  {
    var n := |ss| - 1;
    var init, x := ss[..n], ss[n];
    var before, ys := AppendedAll([], init), AppendedAll([], ss);
    assert ys == Appended(before, x);
    assert ys[i] == before[i] && before[i] in before;
    assert IndexOf(ss, ys[i]) == IndexOf(init, before[i]);
    if j < |before| {
      assert ys[j] == before[j] && before[j] in before;
      assert IndexOf(ss, ys[j]) == IndexOf(init, before[j]);
      AppendedAllFirstOrder(init, i, j);
    } else {
      assert ys[j] == x && x !in init;
    }
  }

  /** What `parse_all` makes of one line: it tries the header pattern, then the keys
      `source`, `commit` and `enable`, in that order; the first that matches wins. */
  datatype Token =
    | Header(path: string)
    | Source(value: string)
    | Commit(value: string)
    | Enable(value: string)
    | Other

  const SourceKey := "source"
  const CommitKey := "commit"
  const EnableKey := "enable"

  function Classify(line: string): (t: Token)
    ensures t.Header? ==> |t.path| >= 1
    ensures t.Source? || t.Commit? || t.Enable? ==> IsValue(t.value)
    ensures t.Source? ==> Occurs(SourceKey, line)
  {
    match MatchSection(line, SubmoduleWord)
    case Some(p) => Header(p)
    case None =>
      match MatchKey(line, SourceKey)
      case Some(v) =>
        assert Occurs(SourceKey, line) by {
          if !Occurs(SourceKey, line) { NoKeyWithoutWord(line, SourceKey, 0); }
        }
        Source(v)
      case None =>
        match MatchKey(line, CommitKey)
        case Some(v) => Commit(v)
        case None =>
          match MatchKey(line, EnableKey)
          case Some(v) => Enable(v)
          case None => Other
  }

  /** The effect of a non-header token on the record it belongs to. `truth` is how an
      `enable` value is read as a boolean: the record is disabled when it reads false. */
  function Apply(r: Record, t: Token, truth: string -> bool): Record {
    match t
    case Source(v) => r.(sources := Appended(r.sources, v))
    case Commit(v) => r.(commit := v)
    case Enable(v) => if truth(v) then r else r.(enabled := false)
    case _ => r
  }

  /** What `parse_all` makes of each line of a file. */
  function Tokens(lines: seq<string>): (ts: seq<Token>)
    ensures |ts| == |lines| && forall i | 0 <= i < |lines| :: ts[i] == Classify(lines[i])
  {
    seq(|lines|, i requires 0 <= i < |lines| => Classify(lines[i]))
  }

  lemma TokensAppend(a: seq<string>, b: seq<string>)
    ensures Tokens(a + b) == Tokens(a) + Tokens(b)
  {
  }

  /** One turn of `parse_all`'s loop: a header opens a new record at the end of the
      result; any other line changes the record opened last, if there is one. */
  function Step(acc: seq<Record>, t: Token, truth: string -> bool): seq<Record> {
    match t
    case Header(p) => acc + [NewRecord(p)]
    case _ => if acc == [] then acc else acc[..|acc| - 1] + [Apply(acc[|acc| - 1], t, truth)]
  }

  /** The records after reading the lines of tokens `ts`, starting from `acc`. */
  function Scan(acc: seq<Record>, ts: seq<Token>, truth: string -> bool): seq<Record> {
    if ts == [] then acc
    else Step(Scan(acc, ts[..|ts| - 1], truth), ts[|ts| - 1], truth)
  }

  /** `bool(s)` of a Python string: true exactly when it is not empty. */
  function PyTruth(s: string): bool {
    |s| > 0
  }

  /** The records `parse_all` returns for the lines of a descriptor, in file order. */
  function Parse(lines: seq<string>): seq<Record> {
    Scan([], Tokens(lines), PyTruth)
  }

  // ---- What `print_to` writes ----

  const Indent := "   "

  /** `str(b)` of a Python bool. */
  function BoolText(b: bool): string {
    if b then "True" else "False"
  }

  function HeaderLine(path: string): string {
    SubmoduleWord + " \"" + path + "\"]"
  }

  function SourceLine(source: string): string {
    Indent + SourceKey + " = " + source
  }

  function CommitLine(commit: string): string {
    Indent + CommitKey + " = " + commit
  }

  function EnableLine(enabled: bool): string {
    Indent + EnableKey + " = " + BoolText(enabled)
  }

  function SourceLines(ss: seq<string>): (lines: seq<string>)
    ensures |lines| == |ss|
  {
    if ss == [] then [] else SourceLines(ss[..|ss| - 1]) + [SourceLine(ss[|ss| - 1])]
  }

  /** The lines `print_to` writes for one record. */
  function Stanza(r: Record): seq<string> {
    [HeaderLine(r.path)] + SourceLines(r.sources) + [CommitLine(r.commit), EnableLine(r.enabled)]
  }

  /** The descriptor written for a list of records, one stanza after the other. */
  function Serialise(rs: seq<Record>): seq<string> {
    if rs == [] then [] else Serialise(rs[..|rs| - 1]) + Stanza(rs[|rs| - 1])
  }

  // ---- Properties of the parser ----

  function Paths(rs: seq<Record>): (ps: seq<string>)
    ensures |ps| == |rs| && forall i | 0 <= i < |rs| :: ps[i] == rs[i].path
  {
    seq(|rs|, i requires 0 <= i < |rs| => rs[i].path)
  }

  /** The paths of the header lines, in file order, repeats included. */
  function HeaderPaths(ts: seq<Token>): seq<string> {
    if ts == [] then []
    else
      var t := ts[|ts| - 1];
      HeaderPaths(ts[..|ts| - 1]) + (if t.Header? then [t.path] else [])
  }

  /** Reading `a + b` is reading `a`, then reading `b` on from there. */
  lemma {:induction false} ScanAppend(acc: seq<Record>, a: seq<Token>, b: seq<Token>, truth: string -> bool)
    ensures Scan(acc, a + b, truth) == Scan(Scan(acc, a, truth), b, truth)
    decreases |b|
  {
    if b == [] {
      assert a + b == a;
    } else {
      assert (a + b)[..|a + b| - 1] == a + b[..|b| - 1];
      ScanAppend(acc, a, b[..|b| - 1], truth);
    }
  }

  /** Every header line opens a record of its own, in file order, even when its path
      was seen before; no other line adds or removes one. */
  lemma {:induction false} ScanPaths(acc: seq<Record>, ts: seq<Token>, truth: string -> bool)
    ensures Paths(Scan(acc, ts, truth)) == Paths(acc) + HeaderPaths(ts)
  {
    if ts != [] {
      var init, last := ts[..|ts| - 1], ts[|ts| - 1];
      ScanPaths(acc, init, truth);
      var before := Scan(acc, init, truth);
      if last.Header? {
        assert Paths(before + [NewRecord(last.path)]) == Paths(before) + [last.path];
      } else if before != [] {
        var n := |before| - 1;
        StepOnOpen(before[..n], before[n], last, truth);
        assert before[..n] + [before[n]] == before;
        assert Paths(before[..n] + [Apply(before[n], last, truth)]) == Paths(before);
      }
    }
  }

  lemma ParsePaths(lines: seq<string>)
    ensures Paths(Parse(lines)) == HeaderPaths(Tokens(lines))
  {
    ScanPaths([], Tokens(lines), PyTruth);
  }

  /** Lines before the first header are ignored. */
  lemma {:induction false} ScanWithoutHeader(ts: seq<Token>, truth: string -> bool)
    requires forall i | 0 <= i < |ts| :: !ts[i].Header?
    ensures Scan([], ts, truth) == []
  {
    if ts != [] {
      ScanWithoutHeader(ts[..|ts| - 1], truth);
    }
  }

  lemma ParseIgnoresPreamble(preamble: seq<string>, rest: seq<string>)
    requires forall i | 0 <= i < |preamble| :: !Classify(preamble[i]).Header?
    ensures Parse(preamble + rest) == Parse(rest)
  {
    TokensAppend(preamble, rest);
    ScanAppend([], Tokens(preamble), Tokens(rest), PyTruth);
    ScanWithoutHeader(Tokens(preamble), PyTruth);
  }

  /** While every `enable` value reads true, no record is disabled. */
  lemma {:induction false} ScanKeepsEnabled(acc: seq<Record>, ts: seq<Token>)
    requires forall i | 0 <= i < |acc| :: acc[i].enabled
    requires forall i | 0 <= i < |ts| :: ts[i].Enable? ==> PyTruth(ts[i].value)
    ensures forall i | 0 <= i < |Scan(acc, ts, PyTruth)| :: Scan(acc, ts, PyTruth)[i].enabled
  {
    if ts != [] {
      ScanKeepsEnabled(acc, ts[..|ts| - 1]);
    }
  }

  /** With `bool()` as the reading of `enable`, no record is ever disabled: every value the
      `enable` pattern captures has two characters or more. */
  lemma ParseNeverDisables(lines: seq<string>)
    ensures forall i | 0 <= i < |Parse(lines)| :: Parse(lines)[i].enabled
  {
    ScanKeepsEnabled([], Tokens(lines));
  }

  /** The values of the `source` lines, in order. */
  function SourceValues(ts: seq<Token>): seq<string> {
    if ts == [] then []
    else
      var t := ts[|ts| - 1];
      SourceValues(ts[..|ts| - 1]) + (if t.Source? then [t.value] else [])
  }

  /** The value of the last `commit` line, or `otherwise`. */
  function LastCommit(ts: seq<Token>, otherwise: string): string {
    if ts == [] then otherwise
    else
      var t := ts[|ts| - 1];
      if t.Commit? then t.value else LastCommit(ts[..|ts| - 1], otherwise)
  }

  /** A line that is not a header changes only the record opened last. */
  lemma StepOnOpen(acc: seq<Record>, r: Record, t: Token, truth: string -> bool)
    requires !t.Header?
    ensures Step(acc + [r], t, truth) == acc + [Apply(r, t, truth)]
  {
    assert (acc + [r])[..|acc|] == acc;
  }

  /** The lines after a header, up to the next header, decide its record: sources
      without repeats in the order they first appear, the last commit seen (else the
      record's own), and the enabled flag untouched. */
  lemma {:induction false} ScanBody(acc: seq<Record>, r: Record, body: seq<Token>)
    requires forall i | 0 <= i < |body| :: !body[i].Header? && (body[i].Enable? ==> PyTruth(body[i].value))
    ensures Scan(acc + [r], body, PyTruth)
         == acc + [r.(sources := AppendedAll(r.sources, SourceValues(body)),
                      commit := LastCommit(body, r.commit))]
  {
    if body != [] {
      var init, last := body[..|body| - 1], body[|body| - 1];
      ScanBody(acc, r, init);
      var ss := SourceValues(init);
      var open := r.(sources := AppendedAll(r.sources, ss), commit := LastCommit(init, r.commit));
      StepOnOpen(acc, open, last, PyTruth);
      if last.Source? {
        assert SourceValues(body) == ss + [last.value];
        assert (ss + [last.value])[..|ss|] == ss;
      } else {
        assert SourceValues(body) == ss;
      }
    }
  }

  /** A stanza read on its own: the path of its header; its sources, first occurrences in
      order and no repeats; its last commit or "HEAD"; enabled. */
  lemma ParseStanza(header: string, body: seq<string>)
    requires Classify(header).Header?
    requires forall i | 0 <= i < |body| :: !Classify(body[i]).Header?
    ensures var ss := AppendedAll([], SourceValues(Tokens(body)));
            && Parse([header] + body) == [Record(Classify(header).path, ss, LastCommit(Tokens(body), "HEAD"), true)]
            && NoDuplicates(ss)
            && forall s :: s in ss <==> s in SourceValues(Tokens(body))
  {
    var h := Classify(header);
    TokensAppend([header], body);
    assert Tokens([header]) == [h];
    ScanAppend([], [h], Tokens(body), PyTruth);
    assert Scan([], [h], PyTruth) == [] + [NewRecord(h.path)];
    ScanBody([], NewRecord(h.path), Tokens(body));
  }

  // ---- Writing then reading back ----

  /** Texts that stay on one line: a line break inside one would split it into several
      lines when the file is read again (in Python's text mode `\r` is a line break too). */
  predicate OneLine(s: string) {
    '\n' !in s && '\r' !in s
  }

  /** A record that `print_to` then `parse_all` give back: each text fits on one line and
      is a value the patterns capture whole; no source repeats; neither a source nor the
      commit holds `[submodule`, and the commit does not hold `source`. */
  ghost predicate Printable(r: Record) {
    && |r.path| >= 1 && OneLine(r.path)
    && NoDuplicates(r.sources)
    && (forall i | 0 <= i < |r.sources| ::
          IsValue(r.sources[i]) && OneLine(r.sources[i]) && !Occurs(SubmoduleWord, r.sources[i]))
    && IsValue(r.commit) && OneLine(r.commit)
    && !Occurs(SubmoduleWord, r.commit) && !Occurs(SourceKey, r.commit)
  }

  lemma ClassifyHeaderLine(path: string)
    requires |path| >= 1 && OneLine(path)
    ensures Classify(HeaderLine(path)) == Header(path)
  {
    SectionLine(SubmoduleWord, path);
  }

  lemma ClassifySourceLine(source: string)
    requires IsValue(source) && OneLine(source) && !Occurs(SubmoduleWord, source)
    ensures Classify(SourceLine(source)) == Source(source)
  {
    var prefix := Indent + SourceKey + " = ";
    OccursPastPrefix(SubmoduleWord, prefix, source);
    NoSectionWithoutWord(SourceLine(source), SubmoduleWord, 0);
    KeyLine(Indent, SourceKey, source, 0);
  }

  lemma ClassifyCommitLine(commit: string)
    requires IsValue(commit) && OneLine(commit) && !Occurs(SubmoduleWord, commit) && !Occurs(SourceKey, commit)
    ensures Classify(CommitLine(commit)) == Commit(commit)
  {
    var prefix := Indent + CommitKey + " = ";
    OccursPastPrefix(SubmoduleWord, prefix, commit);
    NoSectionWithoutWord(CommitLine(commit), SubmoduleWord, 0);
    OccursPastPrefix(SourceKey, prefix, commit);
    NoKeyWithoutWord(CommitLine(commit), SourceKey, 0);
    KeyLine(Indent, CommitKey, commit, 0);
  }

  /** Neither a header nor a `source` or `commit` line can be found in an `enable` line. */
  lemma EnableLineHasNoOtherKey(enabled: bool)
    ensures MatchSection(EnableLine(enabled), SubmoduleWord) == None
    ensures MatchKey(EnableLine(enabled), SourceKey) == None
    ensures MatchKey(EnableLine(enabled), CommitKey) == None
  {
    var prefix := Indent + EnableKey + " = ";
    var text := BoolText(enabled);
    assert EnableLine(enabled) == prefix + text;
    assert |text| <= 5;
    OccursPastPrefix(SubmoduleWord, prefix, text);
    NoSectionWithoutWord(prefix + text, SubmoduleWord, 0);
    OccursPastPrefix(SourceKey, prefix, text);
    NoKeyWithoutWord(prefix + text, SourceKey, 0);
    OccursPastPrefix(CommitKey, prefix, text);
    NoKeyWithoutWord(prefix + text, CommitKey, 0);
  }

  lemma ClassifyEnableLine(enabled: bool)
    ensures Classify(EnableLine(enabled)) == Enable(BoolText(enabled))
  {
    EnableLineHasNoOtherKey(enabled);
    KeyLine(Indent, EnableKey, BoolText(enabled), 0);
  }

  /** How the lines of a printable record read: its header, one `source` token per
      source, its commit and its written enabled flag. */
  function StanzaTokens(r: Record): seq<Token> {
    [Header(r.path)] + SourceTokens(r.sources) + [Commit(r.commit), Enable(BoolText(r.enabled))]
  }

  function SourceTokens(ss: seq<string>): (ts: seq<Token>)
    ensures |ts| == |ss| && forall i | 0 <= i < |ss| :: ts[i] == Source(ss[i])
  {
    seq(|ss|, i requires 0 <= i < |ss| => Source(ss[i]))
  }

  lemma {:induction false} SourceLinesRead(ss: seq<string>)
    requires forall i | 0 <= i < |ss| :: IsValue(ss[i]) && OneLine(ss[i]) && !Occurs(SubmoduleWord, ss[i])
    ensures Tokens(SourceLines(ss)) == SourceTokens(ss)
  {
    if ss != [] {
      var init := ss[..|ss| - 1];
      SourceLinesRead(init);
      TokensAppend(SourceLines(init), [SourceLine(ss[|ss| - 1])]);
      ClassifySourceLine(ss[|ss| - 1]);
    }
  }

  lemma StanzaRead(r: Record)
    requires Printable(r)
    ensures Tokens(Stanza(r)) == StanzaTokens(r)
  {
    ClassifyHeaderLine(r.path);
    SourceLinesRead(r.sources);
    ClassifyCommitLine(r.commit);
    ClassifyEnableLine(r.enabled);
    TokensAppend([HeaderLine(r.path)], SourceLines(r.sources));
    TokensAppend([HeaderLine(r.path)] + SourceLines(r.sources), [CommitLine(r.commit), EnableLine(r.enabled)]);
  }

  /** Reading `source` tokens adds their values to the open record, as `add_source` would. */
  lemma {:induction false} ScanSourceTokens(acc: seq<Record>, r: Record, ss: seq<string>, truth: string -> bool)
    ensures Scan(acc + [r], SourceTokens(ss), truth) == acc + [r.(sources := AppendedAll(r.sources, ss))]
  {
    if ss != [] {
      var init := ss[..|ss| - 1];
      assert SourceTokens(ss)[..|ss| - 1] == SourceTokens(init);
      ScanSourceTokens(acc, r, init, truth);
      StepOnOpen(acc, r.(sources := AppendedAll(r.sources, init)), Source(ss[|ss| - 1]), truth);
    }
  }

  /** Adding distinct sources one by one to an empty list gives them back in order. */
  lemma {:induction false} AppendedAllDistinct(ss: seq<string>)
    requires NoDuplicates(ss)
    ensures AppendedAll([], ss) == ss
  {
    if ss != [] {
      var init := ss[..|ss| - 1];
      AppendedAllDistinct(init);
      assert ss[|ss| - 1] !in init;
      assert init + [ss[|ss| - 1]] == ss;
    }
  }

  /** A header and its `source` tokens open a record with those sources. */
  lemma HeadReadsBack(acc: seq<Record>, r: Record, truth: string -> bool)
    requires NoDuplicates(r.sources)
    ensures Scan(acc, [Header(r.path)] + SourceTokens(r.sources), truth)
         == acc + [NewRecord(r.path).(sources := r.sources)]
  {
    ScanAppend(acc, [Header(r.path)], SourceTokens(r.sources), truth);
    assert [Header(r.path)][..0] == [];
    assert Scan(acc, [Header(r.path)], truth) == acc + [NewRecord(r.path)];
    ScanSourceTokens(acc, NewRecord(r.path), r.sources, truth);
    AppendedAllDistinct(r.sources);
  }

  /** The `commit` and `enable` tokens then set the commit and the enabled flag. */
  lemma TailReadsBack(acc: seq<Record>, r: Record, truth: string -> bool)
    ensures Scan(acc + [NewRecord(r.path).(sources := r.sources)], [Commit(r.commit), Enable(BoolText(r.enabled))], truth)
         == acc + [r.(enabled := truth(BoolText(r.enabled)))]
  {
    var open := NewRecord(r.path).(sources := r.sources);
    var tail := [Commit(r.commit), Enable(BoolText(r.enabled))];
    assert tail[..1] == [Commit(r.commit)];
    assert tail[..1][..0] == [];
    StepOnOpen(acc, open, Commit(r.commit), truth);
    assert Scan(acc + [open], tail[..1], truth) == acc + [open.(commit := r.commit)];
    StepOnOpen(acc, open.(commit := r.commit), Enable(BoolText(r.enabled)), truth);
  }

  /** One written stanza reads back as the record it was written from, except that the
      enabled flag becomes how `truth` reads the written `True` or `False`. */
  lemma StanzaReadsBack(acc: seq<Record>, r: Record, truth: string -> bool)
    requires NoDuplicates(r.sources)
    ensures Scan(acc, StanzaTokens(r), truth) == acc + [r.(enabled := truth(BoolText(r.enabled)))]
  {
    var head := [Header(r.path)] + SourceTokens(r.sources);
    var tail := [Commit(r.commit), Enable(BoolText(r.enabled))];
    assert StanzaTokens(r) == head + tail;
    ScanAppend(acc, head, tail, truth);
    HeadReadsBack(acc, r, truth);
    TailReadsBack(acc, r, truth);
  }

  /** The records as they come back: each one with its enabled flag as `truth` reads
      the written `True` or `False`. */
  function ReadBack(rs: seq<Record>, truth: string -> bool): (back: seq<Record>)
    ensures |back| == |rs|
    ensures forall i | 0 <= i < |rs| :: back[i] == rs[i].(enabled := truth(BoolText(rs[i].enabled)))
  {
    seq(|rs|, i requires 0 <= i < |rs| => rs[i].(enabled := truth(BoolText(rs[i].enabled))))
  }

  /** A whole written descriptor reads back record by record, in order. */
  lemma {:induction false} SerialiseReadsBack(rs: seq<Record>, truth: string -> bool)
    requires forall i | 0 <= i < |rs| :: Printable(rs[i])
    ensures Scan([], Tokens(Serialise(rs)), truth) == ReadBack(rs, truth)
  {
    if rs != [] {
      var init, last := rs[..|rs| - 1], rs[|rs| - 1];
      SerialiseReadsBack(init, truth);
      var before := Tokens(Serialise(init));
      TokensAppend(Serialise(init), Stanza(last));
      StanzaRead(last);
      assert Tokens(Serialise(rs)) == before + StanzaTokens(last);
      ScanAppend([], before, StanzaTokens(last), truth);
      StanzaReadsBack(ReadBack(init, truth), last, truth);
      assert ReadBack(rs, truth) == ReadBack(init, truth) + [last.(enabled := truth(BoolText(last.enabled)))];
    }
  }

  /** `print_to` for every record, then `parse_all`, gives back every path, source list
      and commit in order; every record comes back enabled. */
  lemma RoundTrip(rs: seq<Record>)
    requires forall i | 0 <= i < |rs| :: Printable(rs[i])
    ensures |Parse(Serialise(rs))| == |rs|
    ensures forall i | 0 <= i < |rs| :: Parse(Serialise(rs))[i] == rs[i].(enabled := true)
  {
    var lines := Serialise(rs);
    SerialiseReadsBack(rs, PyTruth);
    forall i | 0 <= i < |rs| ensures Parse(lines)[i] == rs[i].(enabled := true) {
      assert Parse(lines)[i] == rs[i].(enabled := PyTruth(BoolText(rs[i].enabled)));
    }
  }

  /** The enabled flag survives the round trip only when it is true. */
  lemma RoundTripEnabled(rs: seq<Record>)
    requires forall i | 0 <= i < |rs| :: Printable(rs[i]) && rs[i].enabled
    ensures Parse(Serialise(rs)) == rs
  {
    RoundTrip(rs);
    var back := Parse(Serialise(rs));
    forall i | 0 <= i < |rs| ensures back[i] == rs[i] {
      assert back[i] == rs[i].(enabled := true);
    }
  }

  /** As written, any disabled record is written as `enable = False` and read back enabled,
      e.g. `Record("lib/x", ["https://example.org/x.git"], "HEAD", false)`. */
  lemma DisabledComesBackEnabled(r: Record)
    requires Printable(r) && !r.enabled
    ensures Parse(Serialise([r])) == [r.(enabled := true)]
    ensures Parse(Serialise([r])) != [r]
  {
    RoundTrip([r]);
    assert Parse(Serialise([r]))[0] != r;
  }

  /** The evidently intended reading of `enable`: disabled when it says `False`. */
  function IntendedTruth(s: string): bool {
    s != "False"
  }

  /** With the intended reading, writing then reading gives back every record whole. */
  lemma IntendedRoundTrip(rs: seq<Record>)
    requires forall i | 0 <= i < |rs| :: Printable(rs[i])
    ensures Scan([], Tokens(Serialise(rs)), IntendedTruth) == rs
  {
    SerialiseReadsBack(rs, IntendedTruth);
    var back := Scan([], Tokens(Serialise(rs)), IntendedTruth);
    forall i | 0 <= i < |rs| ensures back[i] == rs[i] {
      assert back[i] == rs[i].(enabled := IntendedTruth(BoolText(rs[i].enabled)));
    }
  }
}
