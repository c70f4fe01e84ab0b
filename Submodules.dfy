/** The GitSubmodule objects of git-submodules.py, the loops that build and select them,
    and the decision procedure `clone_repository` follows. Every git process is given by
    its exit status (an oracle parameter); the model says which commands run, in order. */
module Submodules {
  import opened Outcomes
  import opened Patterns
  import opened Descriptor

  /** A command `clone_repository` runs. */
  datatype Command =
    | MakeDirectory(dir: string)             // `mkdir -p dir`
    | ProbeRepositoryRoot(dir: string)       // `git rev-parse --show-toplevel` in dir
    | Checkout(dir: string, commit: string)  // `git checkout commit` in dir
    | Clone(source: string, path: string)    // `git clone source path` in the root directory

  /** How `clone_repository` returns when nothing is raised. */
  datatype CloneResult =
    | CheckedOut                 // the directory already was a repository and checked out
    | ClonedFrom(source: string) // cloned from this source and checked out
    | NotCloned                  // every clone failed: "[F] Could not clone submodule"

  /** The index of the first source whose `git clone` succeeds, or `|sources|` when none does. */
  function FirstCloning(sources: seq<string>, cloneOk: string -> bool, i: nat): (k: nat)
    requires i <= |sources|
    ensures i <= k <= |sources|
    ensures forall j | i <= j < k :: !cloneOk(sources[j])
    ensures k < |sources| ==> cloneOk(sources[k])
    decreases |sources| - i
  {
    if i == |sources| || cloneOk(sources[i]) then i else FirstCloning(sources, cloneOk, i + 1)
  }

  /** `git clone source path` for each of `ss`, in order. */
  function Clones(ss: seq<string>, path: string): (cs: seq<Command>)
    ensures |cs| == |ss| && forall j | 0 <= j < |ss| :: cs[j] == Clone(ss[j], path)
  {
    seq(|ss|, j requires 0 <= j < |ss| => Clone(ss[j], path))
  }

  /** The commands and outcome of the loop over the sources: each source is cloned in
      list order up to the first clone that succeeds; `git checkout` then runs in the
      clone, and its status decides between success and the NameError on `root_path`.
      When no clone succeeds, every source was tried and the method returns normally. */
  ghost predicate ClonesInOrder(sources: seq<string>, cloneOk: string -> bool, checkoutOk: string -> bool,
                                dir: string, path: string, commit: string,
                                commands: seq<Command>, outcome: Outcome<CloneResult>) {
    var k := FirstCloning(sources, cloneOk, 0);
    if k == |sources| then
      commands == Clones(sources, path) && outcome == Done(NotCloned)
    else
      && commands == Clones(sources[..k + 1], path) + [Checkout(dir, commit)]
      && outcome == if checkoutOk(sources[k]) then Done(ClonedFrom(sources[k]))
                    else Raised(NameError("root_path"))
  }

  /** What the loop over the sources promises, read off the commands: the clones follow the
      source list from its start, each source at most once; every clone but the last one
      failed; a checkout follows the last clone exactly when it succeeded; success names
      the source it was cloned from. */
  lemma ClonesInOrderMeans(sources: seq<string>, cloneOk: string -> bool, checkoutOk: string -> bool,
                           dir: string, path: string, commit: string,
                           commands: seq<Command>, outcome: Outcome<CloneResult>)
    requires ClonesInOrder(sources, cloneOk, checkoutOk, dir, path, commit, commands, outcome)
    ensures var n := if outcome == Done(NotCloned) then |commands| else |commands| - 1;
            && 0 <= n <= |sources| && commands[..n] == Clones(sources[..n], path)
            && (forall j | 0 <= j < n - 1 :: !cloneOk(sources[j]))
            && (outcome == Done(NotCloned) ==> n == |sources| && forall j | 0 <= j < n :: !cloneOk(sources[j]))
            && (outcome != Done(NotCloned) ==>
                  && 1 <= n && cloneOk(sources[n - 1]) && commands[n] == Checkout(dir, commit)
                  && outcome == if checkoutOk(sources[n - 1]) then Done(ClonedFrom(sources[n - 1]))
                                else Raised(NameError("root_path")))
  {
    var k := FirstCloning(sources, cloneOk, 0);
    if k == |sources| {
      assert sources[..k] == sources;
    } else {
      assert commands[..k + 1] == Clones(sources[..k + 1], path);
    }
  }

  lemma ParseSnoc(lines: seq<string>, i: nat)
    requires i < |lines|
    ensures Parse(lines[..i + 1]) == Step(Parse(lines[..i]), Classify(lines[i]), PyTruth)
  {
    assert Tokens(lines[..i + 1])[..i] == Tokens(lines[..i]);
  }

  /** A `[submodule "p"]` line starts a fresh record. */
  lemma HeaderStep(acc: seq<Record>, line: string, p: string)
    requires MatchSection(line, SubmoduleWord) == Some(p)
    ensures Step(acc, Classify(line), PyTruth) == acc + [NewRecord(p)]
  {
  }

  /** Any other line updates the last record, or nothing when there is none. */
  lemma BodyStep(acc: seq<Record>, line: string)
    requires MatchSection(line, SubmoduleWord).None?
    ensures acc == [] ==> Step(acc, Classify(line), PyTruth) == []
    ensures acc != [] ==> Step(acc, Classify(line), PyTruth) == acc[..|acc| - 1] + [Apply(acc[|acc| - 1], Classify(line), PyTruth)]
  {
    if acc != [] {
      StepOnOpen(acc[..|acc| - 1], acc[|acc| - 1], Classify(line), PyTruth);
      assert acc[..|acc| - 1] + [acc[|acc| - 1]] == acc;
    }
  }

  /** The records held by a list of objects. */
  function Values(list: seq<GitSubmodule>): (rs: seq<Record>)
    reads list
    ensures |rs| == |list| && forall k | 0 <= k < |list| :: rs[k] == list[k].Value()
  {
    seq(|list|, k requires 0 <= k < |list| reads list => list[k].Value())
  }

  class GitSubmodule {
    var path: string
    var sources: seq<string>
    var commit: string
    var enabled: bool

    function Value(): Record
      reads this
    {
      Record(path, sources, commit, enabled)
    }

    constructor (path: string)
      ensures Value() == NewRecord(path)
    {
      this.path := path;
      sources := [];
      commit := "HEAD";
      enabled := true;
    }

    method Disable()
      modifies this
      ensures Value() == old(Value()).(enabled := false)
    {
      enabled := false;
    }

    /** Appends `source` unless it is already listed. */
    method AddSource(source: string)
      modifies this
      ensures Value() == old(Value()).(sources := Appended(old(sources), source))
      ensures NoDuplicates(old(sources)) ==> NoDuplicates(sources)
    {
      if source !in sources {
        sources := sources + [source];
      }
    }

    method SetCommit(commit: string)
      modifies this
      ensures Value() == old(Value()).(commit := commit)
    {
      this.commit := commit;
    }

    /** Writes the stanza of this submodule after the lines `stream` already holds. */
    method PrintTo(stream: seq<string>) returns (written: seq<string>)
      ensures written == stream + Stanza(Value())
    {
      written := stream + [HeaderLine(path)];
      for i := 0 to |sources|
        invariant written == stream + [HeaderLine(path)] + SourceLines(sources[..i])
      {
        assert sources[..i + 1][..i] == sources[..i];
        written := written + [SourceLine(sources[i])];
      }
      assert sources[..|sources|] == sources;
      written := written + [CommitLine(commit)];
      written := written + [EnableLine(enabled)];
    }

    /** Brings `rootDir/path` to `commit`. `isRoot` is what the repository-root probe
        answers after `mkdir -p`; `probeCheckoutOk`, `cloneOk(s)` and `checkoutOk(s)` are
        whether `git checkout` in the existing directory, `git clone s` and the
        `git checkout` after cloning from `s` exit with status 0. A checkout that fails
        after a clone reaches `cwd = root_path`, a name bound nowhere: NameError. */
    method CloneRepository(rootDir: string, isRoot: bool, probeCheckoutOk: bool,
                           cloneOk: string -> bool, checkoutOk: string -> bool)
      returns (commands: seq<Command>, outcome: Outcome<CloneResult>)
      ensures var dir := rootDir + "/" + path;
              isRoot && probeCheckoutOk ==>
                && commands == [MakeDirectory(dir), ProbeRepositoryRoot(dir), Checkout(dir, commit)]
                && outcome == Done(CheckedOut)
      ensures var dir := rootDir + "/" + path;
              var probe := [MakeDirectory(dir), ProbeRepositoryRoot(dir)] + (if isRoot then [Checkout(dir, commit)] else []);
              !(isRoot && probeCheckoutOk) ==>
                && |probe| <= |commands| && commands[..|probe|] == probe
                && ClonesInOrder(sources, cloneOk, checkoutOk, dir, path, commit, commands[|probe|..], outcome)
      ensures outcome == Done(NotCloned) <==>
                !(isRoot && probeCheckoutOk) && forall j | 0 <= j < |sources| :: !cloneOk(sources[j])
    {
      var dir := rootDir + "/" + path;
      commands := [MakeDirectory(dir), ProbeRepositoryRoot(dir)];
      if isRoot {
        commands := commands + [Checkout(dir, commit)];
        if probeCheckoutOk {
          return commands, Done(CheckedOut);
        }
      }
      commands, outcome := TrySources(dir, commands, cloneOk, checkoutOk);
    }

    /** The loop over the sources: `git clone` from each in turn until one succeeds,
        then `git checkout` in the clone. `before` are the commands already run. */
    method TrySources(dir: string, before: seq<Command>,
                      cloneOk: string -> bool, checkoutOk: string -> bool)
      returns (commands: seq<Command>, outcome: Outcome<CloneResult>)
      ensures |before| <= |commands| && commands[..|before|] == before
      ensures ClonesInOrder(sources, cloneOk, checkoutOk, dir, path, commit, commands[|before|..], outcome)
      ensures outcome == Done(NotCloned) <==> forall j | 0 <= j < |sources| :: !cloneOk(sources[j])
    {
      commands := before;
      for i := 0 to |sources|
        invariant commands == before + Clones(sources[..i], path)
        invariant FirstCloning(sources, cloneOk, 0) == FirstCloning(sources, cloneOk, i)
      {
        var source := sources[i];
        assert Clones(sources[..i + 1], path) == Clones(sources[..i], path) + [Clone(source, path)];
        commands := commands + [Clone(source, path)];
        if cloneOk(source) {
          commands := commands + [Checkout(dir, commit)];
          assert commands[|before|..] == Clones(sources[..i + 1], path) + [Checkout(dir, commit)];
          if checkoutOk(source) {
            return commands, Done(ClonedFrom(source));
          } else {
            return commands, Raised(NameError("root_path"));
          }
        }
      }
      assert sources[..|sources|] == sources;
      assert commands[|before|..] == Clones(sources, path);
      outcome := Done(NotCloned);
    }

    /** The part of `parse_all`'s loop for a line that is not a header, once a submodule
        is open: the `source`, `commit` and `enable` patterns are tried in that order. */
    method ReadLine(line: string)
      requires MatchSection(line, SubmoduleWord).None?
      modifies this
      ensures Value() == Apply(old(Value()), Classify(line), PyTruth)
    {
      match MatchKey(line, SourceKey)
      case Some(v) =>
        AddSource(v);
      case None =>
        match MatchKey(line, CommitKey)
        case Some(v) =>
          SetCommit(v);
        case None =>
          match MatchKey(line, EnableKey)
          case Some(v) =>
            // `if bool(value) == False: disable()`: a captured value has two characters
            // or more, so the branch is dead and `disable()` is never called.
            if PyTruth(v) == false {
              assert false;
            }
          case None =>
    }

    /** One turn of `parse_all`'s loop: a header line appends a new object and makes it
        the current one; any other line goes to the current object, if there is one. */
    static method ParseLine(result: seq<GitSubmodule>, current: GitSubmodule?, line: string)
      returns (result': seq<GitSubmodule>, current': GitSubmodule?)
      requires forall j, k | 0 <= j < k < |result| :: result[j] != result[k]
      requires current == null <==> result == []
      requires current != null ==> current == result[|result| - 1]
      modifies current
      ensures result' == result || (current' != null && fresh(current') && result' == result + [current'])
      ensures forall j, k | 0 <= j < k < |result'| :: result'[j] != result'[k]
      ensures current' == null <==> result' == []
      ensures current' != null ==> current' == result'[|result'| - 1]
      ensures Values(result') == Step(old(Values(result)), Classify(line), PyTruth)
    {
      ghost var before := Values(result);
      var header := MatchSection(line, SubmoduleWord);
      if header.Some? {
        HeaderStep(before, line, header.value);
        current' := new GitSubmodule(header.value);
        result' := result + [current'];
        assert Values(result') == before + [NewRecord(header.value)];
      } else if current != null {
        BodyStep(before, line);
        current.ReadLine(line);
        result', current' := result, current;
        assert forall k | 0 <= k < |result| - 1 :: result[k] != current;
        assert Values(result') == before[..|before| - 1] + [Apply(before[|before| - 1], Classify(line), PyTruth)];
      } else {
        BodyStep(before, line);
        result', current' := result, current;
      }
    }

    /** `parse_all`: one new object per header line, appended in file order; every other
        line after the first header changes the object opened last. */
    static method ParseAll(lines: seq<string>) returns (result: seq<GitSubmodule>)
      ensures forall k | 0 <= k < |result| :: fresh(result[k])
      ensures forall j, k | 0 <= j < k < |result| :: result[j] != result[k]
      ensures Values(result) == Parse(lines)
    {
      result := [];
      var current: GitSubmodule? := null;
      for i := 0 to |lines|
        invariant forall k | 0 <= k < |result| :: fresh(result[k])
        invariant forall j, k | 0 <= j < k < |result| :: result[j] != result[k]
        invariant current == null <==> result == []
        invariant current != null ==> current == result[|result| - 1]
        invariant Values(result) == Parse(lines[..i])
      {
        ParseSnoc(lines, i);
        result, current := ParseLine(result, current, lines[i]);
      }
      assert lines[..|lines|] == lines;
    }

    /** `list_as_a_dict`: each path maps to the last object in the list with that path. */
    static method ListAsADict(list: seq<GitSubmodule>) returns (d: map<string, GitSubmodule>)
      ensures forall p :: p in d <==> exists k | 0 <= k < |list| :: list[k].path == p
      ensures forall k | 0 <= k < |list| ::
                (forall j | k < j < |list| :: list[j].path != list[k].path) ==> d[list[k].path] == list[k]
    {
      d := map[];
      for i := 0 to |list|
        invariant forall p :: p in d <==> exists k | 0 <= k < i :: list[k].path == p
        invariant forall k | 0 <= k < i :: list[k].path in d
        invariant forall k | 0 <= k < i ::
                    (forall j | k < j < i :: list[j].path != list[k].path) ==> d[list[k].path] == list[k]
      {
        d := d[list[i].path := list[i]];
      }
    }
  }

  /** `restrict_dictionary_to`: no path given keeps every submodule; otherwise the given
      paths that are enabled. An unknown path reaches `print(..., file = sys.stderr)`,
      and `sys` is never imported: NameError. */
  method RestrictDictionaryTo(dict: map<string, GitSubmodule>, paths: seq<string>)
    returns (outcome: Outcome<map<string, GitSubmodule>>)
    ensures paths == [] ==> outcome == Done(dict)
    ensures paths != [] && (exists i | 0 <= i < |paths| :: paths[i] !in dict) ==>
              outcome == Raised(NameError("sys"))
    ensures paths != [] && (forall i | 0 <= i < |paths| :: paths[i] in dict) ==>
              && outcome.Done?
              && (forall p :: p in outcome.value <==> p in paths && dict[p].enabled)
              && (forall p | p in outcome.value :: outcome.value[p] == dict[p])
  {
    if paths == [] {
      return Done(dict);
    }
    var result: map<string, GitSubmodule> := map[];
    for i := 0 to |paths|
      invariant forall k | 0 <= k < i :: paths[k] in dict
      invariant forall p :: p in result <==> p in paths[..i] && dict[p].enabled
      invariant forall p | p in result :: result[p] == dict[p]
    {
      var p := paths[i];
      if p !in dict {
        return Raised(NameError("sys"));
      }
      if dict[p].enabled {
        result := result[p := dict[p]];
      }
      assert paths[..i + 1] == paths[..i] + [p];
    }
    assert paths[..|paths|] == paths;
    outcome := Done(result);
  }

  /** The paths `add` creates a submodule for: those not already known, each once, in the
      order they are first given. */
  function NewPaths(known: set<string>, paths: seq<string>): (ps: seq<string>)
    ensures NoDuplicates(ps)
    ensures forall p :: p in ps <==> p in paths && p !in known
  {
    if paths == [] then []
    else
      var prev := NewPaths(known, paths[..|paths| - 1]);
      var p := paths[|paths| - 1];
      if p in known || p in prev then prev else prev + [p]
  }

  /** The records of freshly constructed submodules, one per path. */
  function NewRecords(paths: seq<string>): (rs: seq<Record>)
    ensures |rs| == |paths|
  {
    if paths == [] then []
    else NewRecords(paths[..|paths| - 1]) + [NewRecord(paths[|paths| - 1])]
  }

  lemma {:induction false} NewRecordsOf(made: seq<GitSubmodule>, added: seq<string>)
    requires |made| == |added|
    requires forall j | 0 <= j < |made| :: made[j].Value() == NewRecord(added[j])
    ensures Values(made) == NewRecords(added)
  {
    if added != [] {
      var n := |added| - 1;
      NewRecordsOf(made[..n], added[..n]);
      assert Values(made) == Values(made[..n]) + [made[n].Value()];
    }
  }

  lemma NewPathsSnoc(known: set<string>, paths: seq<string>, i: nat)
    requires i < |paths|
    ensures var added := NewPaths(known, paths[..i]);
            NewPaths(known, paths[..i + 1])
              == if paths[i] in known || paths[i] in added then added else added + [paths[i]]
  {
    assert paths[..i + 1][..i] == paths[..i];
  }

  /** `dict'` is `dict` with `added[j]` entered as `made[j]`, for each `j`. */
  ghost predicate DictExtended(dict: map<string, GitSubmodule>, dict': map<string, GitSubmodule>,
                               added: seq<string>, made: seq<GitSubmodule>) {
    && |made| == |added|
    && (forall p :: p in dict' <==> p in dict || p in added)
    && (forall p | p in dict :: dict'[p] == dict[p])
    && (forall j | 0 <= j < |added| :: added[j] in dict' && dict'[added[j]] == made[j])
  }

  lemma DictStep(dict: map<string, GitSubmodule>, dict': map<string, GitSubmodule>,
                 added: seq<string>, made: seq<GitSubmodule>, path: string, created: GitSubmodule)
    requires DictExtended(dict, dict', added, made) && path !in dict'
    ensures DictExtended(dict, dict'[path := created], added + [path], made + [created])
  {
    var d := dict'[path := created];
    forall j | 0 <= j < |added|
      ensures added[j] in d && d[added[j]] == made[j]
    {
      assert added[j] != path;
    }
  }

  /** What the `add` loop has done once every path is visited, stated over the
      list and the dictionary alone. */
  lemma AddedAll(list: seq<GitSubmodule>, list': seq<GitSubmodule>,
                 dict: map<string, GitSubmodule>, dict': map<string, GitSubmodule>,
                 paths: seq<string>, made: seq<GitSubmodule>)
    requires list' == list + made
    requires DictExtended(dict, dict', NewPaths(dict.Keys, paths), made)
    requires forall j | 0 <= j < |made| :: made[j].Value() == NewRecord(NewPaths(dict.Keys, paths)[j])
    ensures |list| <= |list'| && list'[..|list|] == list
    ensures Values(list'[|list|..]) == NewRecords(NewPaths(dict.Keys, paths))
    ensures forall j | |list| <= j < |list'| :: list'[j].path in dict' && dict'[list'[j].path] == list'[j]
    ensures forall p :: p in dict' <==> p in dict || p in paths
    ensures forall p | p in dict :: dict'[p] == dict[p]
  {
    var added := NewPaths(dict.Keys, paths);
    assert list'[|list|..] == made;
    NewRecordsOf(made, added);
    forall j | |list| <= j < |list'|
      ensures list'[j].path in dict' && dict'[list'[j].path] == list'[j]
    {
      assert list'[j] == made[j - |list|];
      assert made[j - |list|].path == added[j - |list|];
    }
  }

  lemma NewPathsStep(known: map<string, GitSubmodule>, dict: map<string, GitSubmodule>,
                     paths: seq<string>, i: nat, made: seq<GitSubmodule>)
    requires i < |paths| && DictExtended(known, dict, NewPaths(known.Keys, paths[..i]), made)
    ensures NewPaths(known.Keys, paths[..i + 1])
              == if paths[i] in dict then NewPaths(known.Keys, paths[..i])
                 else NewPaths(known.Keys, paths[..i]) + [paths[i]]
  {
    NewPathsSnoc(known.Keys, paths, i);
  }

  /** One turn of the `add` loop: a path not in the dictionary gets a new submodule,
      entered in the dictionary and appended to the list. `added` and `made` are the
      paths and objects added by the turns before. */
  method AddPath(list: seq<GitSubmodule>, dict: map<string, GitSubmodule>, path: string,
                 ghost start: seq<GitSubmodule>, ghost known: map<string, GitSubmodule>,
                 ghost paths: seq<string>, ghost i: nat,
                 ghost added: seq<string>, ghost made: seq<GitSubmodule>)
    returns (list': seq<GitSubmodule>, dict': map<string, GitSubmodule>,
             ghost added': seq<string>, ghost made': seq<GitSubmodule>)
    requires i < |paths| && path == paths[i] && added == NewPaths(known.Keys, paths[..i])
    requires list == start + made && DictExtended(known, dict, added, made)
    requires forall j | 0 <= j < |made| :: made[j].Value() == NewRecord(added[j])
    ensures added' == NewPaths(known.Keys, paths[..i + 1])
    ensures list' == start + made' && DictExtended(known, dict', added', made')
    ensures forall j | 0 <= j < |made'| :: made'[j].Value() == NewRecord(added'[j])
    ensures path in dict ==> added' == added && made' == made
    ensures path !in dict ==> added' == added + [path] && |made'| == |made| + 1
                              && made' == made + [made'[|made|]] && fresh(made'[|made|])
  {
    NewPathsStep(known, dict, paths, i, made);
    list', dict', added', made' := list, dict, added, made;
    if path !in dict {
      var created := new GitSubmodule(path);
      DictStep(known, dict, added, made, path, created);
      dict' := dict[path := created];
      list' := list + [created];
      added', made' := added + [path], made + [created];
    }
  }

  /** The `add` command before it turns into `update-desc`: a new submodule, with the
      defaults, for every given path not yet in the dictionary. */
  method AddNewPaths(list: seq<GitSubmodule>, dict: map<string, GitSubmodule>, paths: seq<string>)
    returns (list': seq<GitSubmodule>, dict': map<string, GitSubmodule>)
    ensures |list| <= |list'| && list'[..|list|] == list
    ensures Values(list'[|list|..]) == NewRecords(NewPaths(dict.Keys, paths))
    ensures forall j | |list| <= j < |list'| :: fresh(list'[j])
    ensures forall j | |list| <= j < |list'| :: list'[j].path in dict' && dict'[list'[j].path] == list'[j]
    ensures forall p :: p in dict' <==> p in dict || p in paths
    ensures forall p | p in dict :: dict'[p] == dict[p]
  {
    list', dict' := list, dict;
    ghost var added: seq<string> := [];
    ghost var made: seq<GitSubmodule> := [];
    for i := 0 to |paths|
      invariant added == NewPaths(dict.Keys, paths[..i])
      invariant list' == list + made
      invariant DictExtended(dict, dict', added, made)
      invariant forall j | 0 <= j < |made| :: made[j].Value() == NewRecord(added[j])
      invariant forall o | o in made :: fresh(o)
    {
      list', dict', added, made := AddPath(list', dict', paths[i], list, dict, paths, i, added, made);
    }
    assert paths[..|paths|] == paths;
    AddedAll(list, list', dict, dict', paths, made);
    forall j | |list| <= j < |list'|
      ensures fresh(list'[j])
    {
      assert list'[j] in made;
    }
  }

  /** Regenerates the whole descriptor: `print_to` of every submodule in list order. */
  method WriteDescriptor(list: seq<GitSubmodule>) returns (written: seq<string>)
    ensures written == Serialise(Values(list))
  {
    written := [];
    for i := 0 to |list|
      invariant written == Serialise(Values(list[..i]))
    {
      assert Values(list[..i + 1])[..i] == Values(list[..i]);
      written := list[i].PrintTo(written);
    }
    assert list[..|list|] == list;
  }
}
