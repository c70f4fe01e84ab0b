/** The three helpers of git-submodules.py that read what git or the work tree holds:
    the current commit, the remotes of a repository and the `.gitignore` of the root.
    The text a git process prints and the content of a file are parameters (`None`
    for a file that does not exist); lines are given without their line breaks. */
module GitQueries {
  import opened Outcomes
  import opened Patterns
  import opened Descriptor

  // ---- git_get_current_commit_hash ----

  /** `git_get_current_commit_hash`: the first `[a-z0-9]+` run of the first line of
      `git rev-parse HEAD` that holds one. With no such line the function reaches
      `print(..., file = sys.stderr)`, and `sys` is never imported: NameError, so its
      `return "HEAD"` is never reached. */
  method CurrentCommitHash(stdout: seq<string>) returns (outcome: Outcome<string>)
    ensures outcome.Done? <==> exists k | 0 <= k < |stdout| :: FirstRun(stdout[k]).Some?
    ensures outcome.Done? ==>
              exists k | 0 <= k < |stdout| ::
                && FirstRun(stdout[k]) == Some(outcome.value)
                && forall j | 0 <= j < k :: FirstRun(stdout[j]).None?
    ensures outcome.Raised? ==> outcome.failure == NameError("sys")
  {
    for i := 0 to |stdout|
      invariant forall j | 0 <= j < i :: FirstRun(stdout[j]).None?
    {
      var search := FirstRun(stdout[i]);
      if search.Some? {
        return Done(search.value);
      }
    }
    outcome := Raised(NameError("sys"));
  }

  lemma {:induction false} RunToEnd(s: string, i: nat)
    requires i <= |s|
    requires forall k | i <= k < |s| :: IsHashChar(s[k])
    ensures RunLength(s, i) == |s| - i
    decreases |s| - i
  {
    if i < |s| {
      RunToEnd(s, i + 1);
    }
  }

  /** A line made only of lower-case letters and digits, as `git rev-parse HEAD` prints
      a SHA-1, is returned whole. */
  lemma HashLineIsTheHash(h: string)
    requires |h| >= 1 && forall k | 0 <= k < |h| :: IsHashChar(h[k])
    ensures FirstRun(h) == Some(h)
  {
    assert FirstHashIndex(h, 0) == 0;
    RunToEnd(h, 0);
    assert h[0..|h|] == h;
  }

  // ---- git_get_all_remotes ----

  const UrlKey := "url"

  /** What the loop of `git_get_all_remotes` can tell about a line, patterns tried in
      its order: a `[remote "NAME"]` header, a `url = ...` line, another line with a `[`
      (which ends a remote section), or anything else. */
  datatype ConfigLine = RemoteHead | Url(url: string) | Bracket | Plain

  function ConfigKind(line: string): (c: ConfigLine)
    ensures c.RemoteHead? <==> MatchSection(line, RemoteWord).Some?
    ensures c.Url? <==> MatchSection(line, RemoteWord).None? && MatchKey(line, UrlKey).Some?
    ensures c.Url? ==> IsValue(c.url)
    ensures c.Bracket? ==> OpensSection(line)
    ensures c.RemoteHead? || c.Bracket? ==> '[' in line
    ensures '[' !in line ==> c.Url? || c.Plain?
  {
    assert '[' !in line ==> MatchSection(line, RemoteWord).None? by {
      if '[' !in line { NoRemoteWithoutBracket(line); }
    }
    if MatchSection(line, RemoteWord).Some? then RemoteHead
    else match MatchKey(line, UrlKey)
      case Some(u) => Url(u)
      case None => if OpensSection(line) then Bracket else Plain
  }

  function Kinds(lines: seq<string>): (kinds: seq<ConfigLine>)
    ensures |kinds| == |lines| && forall k | 0 <= k < |lines| :: kinds[k] == ConfigKind(lines[k])
  {
    seq(|lines|, k requires 0 <= k < |lines| => ConfigKind(lines[k]))
  }

  /** Line `k` is read inside a remote section: some earlier line is a remote header and
      no line strictly between that header and `k` ends the section. */
  ghost predicate InRemoteSection(kinds: seq<ConfigLine>, k: int)
    requires 0 <= k <= |kinds|
  {
    exists h | 0 <= h < k :: kinds[h].RemoteHead? && NoBracketBetween(kinds, h, k)
  }

  ghost predicate NoBracketBetween(kinds: seq<ConfigLine>, h: int, k: int)
    requires 0 <= h < k <= |kinds|
  {
    forall j | h < j < k :: !kinds[j].Bracket?
  }

  /** Line `k` contributes its url: it is a url line inside a remote section. */
  ghost predicate Selected(kinds: seq<ConfigLine>, k: int)
    requires 0 <= k < |kinds|
  {
    kinds[k].Url? && InRemoteSection(kinds, k)
  }

  /** The urls of the selected lines, in file order. */
  ghost function RemoteUrls(kinds: seq<ConfigLine>): (urls: seq<string>)
    ensures |urls| <= |kinds|
  {
    if kinds == [] then []
    else
      var n := |kinds| - 1;
      RemoteUrls(kinds[..n]) + (if Selected(kinds, n) then [kinds[n].url] else [])
  }

  /** How the section flag moves from one line to the next: a header opens a section,
      and an open section stays open until a bracket line closes it. */
  lemma OpenStep(kinds: seq<ConfigLine>, i: nat)
    requires i < |kinds|
    ensures InRemoteSection(kinds, i + 1)
            <==> kinds[i].RemoteHead? || (InRemoteSection(kinds, i) && !kinds[i].Bracket?)
  {
    if InRemoteSection(kinds, i + 1) && !kinds[i].RemoteHead? {
      var h :| 0 <= h < i + 1 && kinds[h].RemoteHead? && NoBracketBetween(kinds, h, i + 1);
      assert h < i;
      assert NoBracketBetween(kinds, h, i);
    }
    if kinds[i].RemoteHead? {
      assert NoBracketBetween(kinds, i, i + 1);
    } else if InRemoteSection(kinds, i) && !kinds[i].Bracket? {
      var h :| 0 <= h < i && kinds[h].RemoteHead? && NoBracketBetween(kinds, h, i);
      assert NoBracketBetween(kinds, h, i + 1);
    }
  }

  lemma RemoteUrlsSnoc(kinds: seq<ConfigLine>, i: nat)
    requires i < |kinds|
    ensures RemoteUrls(kinds[..i + 1])
            == RemoteUrls(kinds[..i]) + (if Selected(kinds, i) then [kinds[i].url] else [])
  {
    var pre := kinds[..i + 1];
    assert pre[..i] == kinds[..i];
    assert Selected(pre, i) == Selected(kinds, i) by {
      forall h | 0 <= h < i
        ensures NoBracketBetween(pre, h, i) == NoBracketBetween(kinds, h, i)
      {
      }
    }
  }

  /** Every url returned is a captured value: two characters or more, no space at either end. */
  lemma {:induction false} RemoteUrlsAreValues(kinds: seq<ConfigLine>)
    requires forall k | 0 <= k < |kinds| :: kinds[k].Url? ==> IsValue(kinds[k].url)
    ensures forall u | u in RemoteUrls(kinds) :: IsValue(u)
  {
    if kinds != [] {
      RemoteUrlsAreValues(kinds[..|kinds| - 1]);
    }
  }

  /** Nothing before the first remote header is read. */
  lemma {:induction false} NoUrlBeforeRemote(kinds: seq<ConfigLine>)
    requires forall k | 0 <= k < |kinds| :: !kinds[k].RemoteHead?
    ensures RemoteUrls(kinds) == []
  {
    if kinds != [] {
      NoUrlBeforeRemote(kinds[..|kinds| - 1]);
    }
  }

  /** `git_get_all_remotes`: the url of every `url = ...` line inside a `[remote "..."]`
      section of `.git/config`. A missing file reaches `print(..., file = sys.stderr)`
      inside the `except` clause: NameError. */
  method AllRemotes(config: Option<seq<string>>) returns (outcome: Outcome<seq<string>>)
    ensures config.None? ==> outcome == Raised(NameError("sys"))
    ensures config.Some? ==> outcome == Done(RemoteUrls(Kinds(config.value)))
  {
    if config.None? {
      return Raised(NameError("sys"));
    }
    var lines := config.value;
    ghost var kinds := Kinds(lines);
    var result: seq<string> := [];
    var shouldReadUrl := false;
    for i := 0 to |lines|
      invariant shouldReadUrl == InRemoteSection(kinds, i)
      invariant result == RemoteUrls(kinds[..i])
    {
      var line := lines[i];
      OpenStep(kinds, i);
      RemoteUrlsSnoc(kinds, i);
      if MatchSection(line, RemoteWord).Some? {
        shouldReadUrl := true;
        continue;
      }
      if shouldReadUrl {
        var url := MatchKey(line, UrlKey);
        if url.Some? {
          result := result + [url.value];
          continue;
        }
        if OpensSection(line) {
          shouldReadUrl := false;
        }
      }
    }
    assert kinds[..|lines|] == kinds;
    outcome := Done(result);
  }

  /** A `[remote "NAME"]` header followed by `PAD url = U` reads back `U`. */
  lemma RemoteStanzaReadsBack(name: string, pad: string, u: string)
    requires |name| >= 1 && AllSpaces(pad) && IsValue(u) && !Occurs(RemoteWord, u)
    ensures RemoteUrls(Kinds([RemoteWord + " \"" + name + "\"]", pad + UrlKey + " = " + u])) == [u]
  {
    var header := RemoteWord + " \"" + name + "\"]";
    var urlLine := pad + UrlKey + " = " + u;
    SectionLine(RemoteWord, name);
    KeyLine(pad, UrlKey, u, 0);
    assert '[' !in pad + UrlKey + " = " by {
      assert !IsSpace('[');
    }
    OccursPastPrefix(RemoteWord, pad + UrlKey + " = ", u);
    NoSectionWithoutWord(urlLine, RemoteWord, 0);
    var kinds := Kinds([header, urlLine]);
    assert kinds == [RemoteHead, Url(u)];
    assert NoBracketBetween(kinds, 0, 1);
    assert Selected(kinds, 1);
    assert kinds[..1][..0] == [];
  }

  lemma NoRemoteWithoutBracket(line: string)
    requires '[' !in line
    ensures MatchSection(line, RemoteWord).None?
  {
    forall i | 0 <= i <= |line| - |RemoteWord|
      ensures !OccursAt(RemoteWord, line, i)
    {
      assert line[i..i + |RemoteWord|][0] == line[i];
    }
    NoSectionWithoutWord(line, RemoteWord, 0);
  }

  // ---- git_add_to_gitignore ----

  /** The entries already present: every line of the file, stripped. */
  function StrippedLines(lines: seq<string>): (present: seq<string>)
    ensures |present| == |lines| && forall k | 0 <= k < |lines| :: present[k] == Strip(lines[k])
  {
    seq(|lines|, k requires 0 <= k < |lines| => Strip(lines[k]))
  }

  /** `git_add_to_gitignore`: each entry that no line of `.gitignore` holds (after
      stripping) is appended as a line of its own, each once; the lines already there
      stay. The order of the new lines is the iteration order of a Python set, which
      the model leaves open. Opening a missing file raises FileNotFoundError. */
  method AddToGitignore(rootPath: string, entries: set<string>, file: Option<seq<string>>)
    returns (outcome: Outcome<seq<string>>)
    ensures file.None? ==> outcome == Raised(FileNotFoundError(rootPath + "/.gitignore"))
    ensures file.Some? ==>
              && outcome.Done?
              && |file.value| <= |outcome.value|
              && outcome.value[..|file.value|] == file.value
              && NoDuplicates(outcome.value[|file.value|..])
              && forall e :: e in outcome.value[|file.value|..] <==> e in entries && e !in StrippedLines(file.value)
  {
    if file.None? {
      return Raised(FileNotFoundError(rootPath + "/.gitignore"));
    }
    var lines := file.value;
    var missing := DiscardPresent(entries, lines);
    var appended := PrintEach(missing);
    assert (lines + appended)[..|lines|] == lines;
    assert (lines + appended)[|lines|..] == appended;
    outcome := Done(lines + appended);
  }

  /** The reading loop of `git_add_to_gitignore`: every stripped line is discarded from
      the entry set, stopping early once the set is empty. */
  method DiscardPresent(entries: set<string>, lines: seq<string>) returns (missing: set<string>)
    ensures forall e :: e in missing <==> e in entries && e !in StrippedLines(lines)
  {
    ghost var present := StrippedLines(lines);
    missing := entries;
    for i := 0 to |lines|
      invariant forall e :: e in missing <==> e in entries && e !in present[..i]
    {
      var stripped := Strip(lines[i]);
      assert present[..i + 1] == present[..i] + [stripped];
      missing := missing - {stripped};
      if |missing| == 0 {
        assert forall e | e in entries :: e in present[..i + 1];
        assert forall e | e in present[..i + 1] :: e in present;
        return;
      }
    }
    assert present[..|lines|] == present;
  }

  /** The writing loop: each remaining entry printed once, in some order. */
  method PrintEach(missing: set<string>) returns (appended: seq<string>)
    ensures NoDuplicates(appended)
    ensures forall e :: e in appended <==> e in missing
  {
    appended := [];
    var remaining := missing;
    while remaining != {}
      invariant remaining <= missing
      invariant NoDuplicates(appended)
      invariant forall e :: e in appended <==> e in missing && e !in remaining
      decreases |remaining|
    {
      var newEntry :| newEntry in remaining;
      appended := appended + [newEntry];
      remaining := remaining - {newEntry};
    }
  }

  /** An entry with no space at either end is given back whole by `str.strip()`. */
  lemma StripKeepsClean(e: string)
    requires e == [] || (!IsSpace(e[0]) && !IsSpace(e[|e| - 1]))
    ensures Strip(e) == e
  {
    if e != [] {
      assert SpacesFrom(e, 0) == 0;
      TrimNothing(e);
      assert e[0..] == e;
    }
  }

  /** A second run with the same entries adds nothing: once the entries (each on one line,
      none with a space at either end) have been appended, every one of them is present. */
  lemma GitignoreSettles(lines: seq<string>, appended: seq<string>, entries: set<string>)
    requires forall e | e in entries :: OneLine(e) && (e == [] || (!IsSpace(e[0]) && !IsSpace(e[|e| - 1])))
    requires forall e :: e in appended <==> e in entries && e !in StrippedLines(lines)
    ensures forall e | e in entries :: e in StrippedLines(lines + appended)
  {
    var all := lines + appended;
    forall e | e in entries
      ensures e in StrippedLines(all)
    {
      if e in StrippedLines(lines) {
        var k :| 0 <= k < |lines| && StrippedLines(lines)[k] == e;
        assert all[k] == lines[k];
        assert StrippedLines(all)[k] == e;
      } else {
        var k :| 0 <= k < |appended| && appended[k] == e;
        StripKeepsClean(e);
        assert all[|lines| + k] == e;
        assert StrippedLines(all)[|lines| + k] == e;
      }
    }
  }
}
