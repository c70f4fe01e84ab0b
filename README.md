# git-submodules, modelled in Dafny

`git-submodules.py` is "git submodules, but useable". The repository root holds a
`.gitsubmodules` descriptor, which is a list of stanzas:

```
[submodule "lib/x"]
   source = https://example.org/x.git
   commit = 0123abcd
   enable = True
```

The script parses the descriptor into `GitSubmodule` objects. Each object has a path, a
list of clone sources without repeats, a commit (`"HEAD"` by default) and an enabled flag.
The script then:

- selects the objects named on the command line;
- clones or checks out each selected submodule, trying each source in turn;
- updates each description from the clone's `git rev-parse HEAD` and `.git/config`;
- writes the whole descriptor again with `print_to`;
- adds the submodule paths to `.gitignore`.

This project models those parts:

- **`Outcomes.dfy`**: optional values, and the exceptions the script raises without
  catching them.
- **`Patterns.dfy`**: the observable rules of the regular expressions.
  - A search is unanchored. The leftmost occurrence of the key whose tail matches decides
    the result.
  - A value is two characters or more, with no whitespace at either end.
  - The greedy `(.+)` in a header stops at the last `"]`.
  - `str.strip()` removes the characters for which `str.isspace()` holds.
- **`Descriptor.dfy`**: the descriptor as values.
  - `Record` holds the fields of a `GitSubmodule`.
  - `Classify` says what `parse_all` makes of one line.
  - `Parse` specifies the whole parse.
  - `Stanza` and `Serialise` are what `print_to` writes.
  - The lemmas cover the parser and the write-then-read round trip.
- **`Submodules.dfy`**: the in-place part.
  - The `GitSubmodule` class, with its mutators, `print_to`, `parse_all` and
    `list_as_a_dict`.
  - The decision procedure of `clone_repository`.
  - `restrict_dictionary_to`, the `add` command's creation step, and the descriptor
    write.
  - `ParseAll`, `PrintTo` and `WriteDescriptor` are proved against `Parse`, `Stanza`
    and `Serialise` of `Descriptor`; `CloneRepository` and `TrySources` against the
    specification `ClonesInOrder`; the other loops state their result directly.
- **`GitQueries.dfy`**: the line scanners of `git_get_current_commit_hash`,
  `git_get_all_remotes` and `git_add_to_gitignore`.

**I/O.** A file is a sequence of lines without line breaks. A missing file is `None`.
The exit status of each git process is a parameter, and `clone_repository` returns the
commands it runs, in order.

**Exceptions.** The script never imports `sys`, so every `print(..., file = sys.stderr)`
raises `NameError`. The model returns `Raised(NameError("sys"))` there. The same holds for
the unbound `root_path` in `clone_repository`.

## Model

| member | source | states |
|---|---|---|
| Descriptor.Appended | git-submodules.py:149-151 | `add_source` keeps the list as a prefix and adds the source at the end exactly when it is absent; membership grows by that source only; a list without repeats stays without repeats |
| Descriptor.AppendedAll | git-submodules.py:276-281 | adding sources one by one keeps the old list as a prefix; membership is old plus added; no repeats are introduced |
| Descriptor.AppendedAllFirstOrder | git-submodules.py:149-151 | sources added one by one to an empty list keep the order of their first occurrences: of two listed sources, the earlier one first occurs earlier in the input |
| Descriptor.Classify | git-submodules.py:264-292 | the first pattern that matches decides the line's meaning: a header's path is non-empty; a captured `source`/`commit`/`enable` value has two characters or more with no space at either end; a `source` token needs the word `source` in the line |
| Descriptor.ScanPaths | git-submodules.py:263-271 | every header line appends a record with its path, in file order, repeats included; no other line adds or removes a record |
| Descriptor.ParsePaths | git-submodules.py:259-298 | the paths of the parsed records are exactly the header paths of the file, in order |
| Descriptor.ParseIgnoresPreamble | git-submodules.py:273-274 | lines before the first header change nothing |
| Descriptor.ScanKeepsEnabled | git-submodules.py:290-296 | while every `enable` value reads true, no record gets disabled |
| Descriptor.ParseNeverDisables | git-submodules.py:290-296 | every record `parse_all` returns is enabled |
| Descriptor.ScanBody | git-submodules.py:276-288 | the lines of a stanza give its record the sources in first-occurrence order without repeats and the last commit seen; other fields keep their values |
| Descriptor.ParseStanza | git-submodules.py:128-132 | one stanza parses to one record: the header's path, sources in first-occurrence order without repeats, the last commit or `"HEAD"`, enabled |
| Descriptor.ClassifyHeaderLine | git-submodules.py:157 | the header `print_to` writes for a non-empty path without a line break reads back as a header with that path; any other characters, quotes and brackets included, are allowed |
| Descriptor.ClassifySourceLine | git-submodules.py:160 | a written `source` line reads back as that source, for a value without a line break, without spaces at either end and without `[submodule` in it |
| Descriptor.ClassifyCommitLine | git-submodules.py:162 | a written `commit` line reads back as that commit, for a value without a line break, without spaces at either end and without `[submodule` or `source` in it |
| Descriptor.ClassifyEnableLine | git-submodules.py:164 | a written `enable` line reads back as the text `True` or `False` |
| Descriptor.StanzaRead | git-submodules.py:156-164 | the lines `print_to` writes for a printable record classify as its header, its sources, its commit and its flag |
| Descriptor.StanzaReadsBack | git-submodules.py:259-298 | reading one written stanza appends its record, with the flag as the boolean reading of the written text |
| Descriptor.SerialiseReadsBack | git-submodules.py:406-408 | a whole written descriptor reads back record by record, in order |
| Descriptor.RoundTrip | git-submodules.py:156-164 | `print_to` for each record, then `parse_all`, gives back as many records, with the same paths, sources and commits, all enabled |
| Descriptor.RoundTripEnabled | git-submodules.py:164 | records that are all enabled come back equal |
| Descriptor.DisabledComesBackEnabled | git-submodules.py:293-294 | a disabled record comes back enabled, so not equal to itself |
| Descriptor.IntendedRoundTrip | git-submodules.py:293-294 | with `enable = False` read as false, every printable record comes back equal, flag included |
| Patterns.Strip | git-submodules.py:102 | the result has no space at either end and is a slice of the input with only spaces outside it |
| Patterns.LastCloseBelow | git-submodules.py:264 | the greedy `(.+)` ends at the last `"]` after its first character: no `"]` comes later; when there is none, no header match exists |
| Patterns.MatchKey | git-submodules.py:276 | a captured value has two characters or more and no space at either end |
| Patterns.MatchSection | git-submodules.py:264 | a captured header path is non-empty |
| Patterns.KeyLine | git-submodules.py:276 | `PAD KEY = v`, with spaces as padding, captures exactly `v` |
| Patterns.SectionLine | git-submodules.py:264 | `WORD "p"]` captures exactly `p`, quotes and brackets inside `p` included |
| Patterns.FirstRun | git-submodules.py:44 | no run exactly when the line holds no `[a-z0-9]` character; otherwise the leftmost maximal run |
| GitQueries.CurrentCommitHash | git-submodules.py:36-58 | the result is the first run of the first line holding one; with none, `NameError` on `sys` |
| GitQueries.HashLineIsTheHash | git-submodules.py:43-47 | a line of letters and digits, as git prints a SHA-1, is returned whole |
| GitQueries.ConfigKind | git-submodules.py:69-86 | only a line holding `[` can open or close a remote section; a line without one is a url line or plain, whatever else it holds |
| GitQueries.OpenStep | git-submodules.py:71-87 | the flag is set by a remote header and cleared by a `[` line that is not a url; otherwise it is kept |
| GitQueries.AllRemotes | git-submodules.py:60-97 | the urls of the `url` lines inside remote sections, in file order; a missing `.git/config` gives `NameError` on `sys` |
| GitQueries.RemoteUrlsAreValues | git-submodules.py:77-80 | every url returned is a captured value |
| GitQueries.NoUrlBeforeRemote | git-submodules.py:64-76 | nothing is read before the first remote header |
| GitQueries.RemoteStanzaReadsBack | git-submodules.py:69-80 | a remote header followed by a `url` line yields exactly that url, brackets inside it (an IPv6 literal) included |
| GitQueries.AddToGitignore | git-submodules.py:99-108 | the old lines stay in place; exactly the entries that no stripped line holds are appended, each once; a missing `.gitignore` raises `FileNotFoundError` |
| GitQueries.DiscardPresent | git-submodules.py:100-105 | the entries left are those no stripped line equals, early stop included |
| GitQueries.PrintEach | git-submodules.py:107-108 | every remaining entry is printed once, with no repeats |
| GitQueries.StripKeepsClean | git-submodules.py:102 | stripping a text with no space at either end gives it back |
| GitQueries.GitignoreSettles | git-submodules.py:99-108 | for entries that each fit on one line and have no space at either end, every entry is present once they are appended, so a second run adds nothing |
| Submodules.GitSubmodule.constructor | git-submodules.py:128-132 | a new object has the given path, no source, commit `"HEAD"` and is enabled |
| Submodules.GitSubmodule.Disable | git-submodules.py:146-147 | only the enabled flag changes, to false |
| Submodules.GitSubmodule.AddSource | git-submodules.py:149-151 | only the sources change, as `Appended` says; no repeats are introduced |
| Submodules.GitSubmodule.SetCommit | git-submodules.py:153-154 | only the commit changes |
| Submodules.GitSubmodule.PrintTo | git-submodules.py:156-164 | appends exactly the stanza of the object's current fields |
| Submodules.FirstCloning | git-submodules.py:183-203 | the index of the first source whose clone succeeds: every source before it fails, and it is the list's length when none succeeds |
| Submodules.ClonesInOrderMeans | git-submodules.py:183-234 | under `ClonesInOrder`, the clones follow the source list from its start, each source once; all but the last clone failed; a checkout follows the last clone exactly when it succeeded, and its status gives `ClonedFrom` that source or `NameError` on `root_path`; with no success every source was tried |
| Submodules.GitSubmodule.CloneRepository | git-submodules.py:166-234 | the whole command sequence: `mkdir -p`, the root probe, then `git checkout` when the directory is a repository root; a successful checkout ends there with no clone; otherwise the commands and outcome are those `ClonesInOrder` fixes; every clone failing is a normal return |
| Submodules.GitSubmodule.TrySources | git-submodules.py:183-232 | after the earlier commands, the clones of the sources up to the first that succeeds, then `git checkout` after that one, with the outcome it decides (`ClonesInOrder`); `NotCloned` exactly when no clone succeeds |
| Submodules.GitSubmodule.ReadLine | git-submodules.py:276-296 | a non-header line changes the object exactly as `Apply` of its token |
| Submodules.GitSubmodule.ParseLine | git-submodules.py:263-296 | one turn of the loop: the records of the list step as `Step` says; a header appends a fresh object that becomes current |
| Submodules.GitSubmodule.ParseAll | git-submodules.py:259-298 | returns distinct fresh objects whose fields are exactly `Parse` of the lines |
| Submodules.GitSubmodule.ListAsADict | git-submodules.py:251-257 | the keys are exactly the paths of the list; each path maps to the last object holding it |
| Submodules.RestrictDictionaryTo | git-submodules.py:313-335 | no paths keeps the whole dictionary; an unknown path gives `NameError` on `sys`; otherwise exactly the given paths that are enabled, each mapped to its object |
| Submodules.NewPaths | git-submodules.py:383-387 | the paths `add` creates objects for are the given paths that are not yet known, each once |
| Submodules.AddPath | git-submodules.py:384-387 | an unknown path gets one fresh object with default fields, entered in the dictionary and appended to the list; a known path changes nothing |
| Submodules.AddedAll | git-submodules.py:382-389 | after the loop the old list is a prefix, the new objects are one default record per new path, each entered under its path, and old keys are unchanged |
| Submodules.AddNewPaths | git-submodules.py:382-389 | the list grows by fresh default objects for the new paths, in order; the dictionary gains exactly the given paths, each mapped to its new object; old entries are unchanged |
| Submodules.WriteDescriptor | git-submodules.py:406-408 | writes exactly `Serialise` of the objects' fields, in list order |

## Behaviour of the script worth knowing

- git-submodules.py:263-271: a repeated header opens a second record with the same path;
  it is not merged into the first.
- git-submodules.py:406-408: the descriptor is rewritten wholesale from `print_to`, so lines
  the parser does not recognise are dropped.
- git-submodules.py:290-294: `enable` is read with `bool()` of the text (see Findings).
- git-submodules.py:49-58, 89-95, 320-325: a `rev-parse` output without a hash, a missing
  `.git/config` and an unknown path all reach `print(..., file = sys.stderr)`. `sys` is
  never imported, so each raises `NameError`, and the `return` after it is never reached.
- git-submodules.py:170-181: a failed checkout of an existing repository leaves the
  directory as it is and goes on to the sources.
- git-submodules.py:216-228: a failed checkout after a clone reaches `cwd = root_path`,
  a name bound nowhere in the method, so it raises `NameError` before the clone is removed
  or the next source is tried.
- git-submodules.py:234: when every clone fails, the method prints a message and returns
  normally.

## Left out

- Subprocess plumbing is modelled only through its exit status, which is a parameter:
  - `mkdir -p`, `git rev-parse`, `git checkout`, `git clone` and `rm -rf`;
  - `git_find_root_path`, `git_is_repository_root` and `ensure_directory_exists`;
  - `clone_repository` records the commands it starts, but what they do to the disk is
    not modelled.
- Printed progress and error messages: nothing observable depends on them.
- The argparse setup and the command dispatch, except the `add` step, because they are
  glue around the modelled operations.
- `get_submodules_of` and the opening, reading and writing of files. A file is a
  sequence of lines; a missing file is `None`.
- `apply_clone_to`, `apply_clear_to`, `apply_update_desc_to`, `clear_repository` and
  `update_description`: thin loops over I/O and the modelled operations.
- The getters `get_path`, `get_sources`, `get_commit` and `get_is_enabled`: they are
  the fields themselves.
- The regular-expression engine itself. Only the observable matching rules are modelled.
  Lines have no line break; every pattern treats one as whitespace.
- GitQueries.AddToGitignore: the order of the appended entries is Python's set order,
  which is unspecified, so only membership and the absence of repeats are stated.
- GitQueries.AddToGitignore: a `.gitignore` whose last line has no line break would get
  the first new entry joined to that line. The model treats every appended entry as a
  line of its own.
- Submodules.GitSubmodule.ParseAll: the descriptor lines are taken as already split.
  `\r` and `\n` inside a value would split it, so the round-trip lemmas require values
  without them.
- Descriptor.ClassifyHeaderLine, Descriptor.ClassifySourceLine, Descriptor.ClassifyCommitLine
  and Descriptor.SourceLinesRead: `print` at git-submodules.py:157-162 writes a path or value
  holding `\n` or `\r` as several lines, so these read-back lemmas require `OneLine`.

## Findings

| source | as written | input that shows it | evidently intended | confidence | as-written member | corrected member |
|---|---|---|---|---|---|---|
| git-submodules.py:293 | `enable` is read with `bool()` of the captured text, true for every value the pattern can capture, so `disable()` is never called | a record with `enabled` false is written as `enable = False` and read back enabled, e.g. `Record("lib/x", ["https://example.org/x.git"], "HEAD", false)` | `enable = False` disables the submodule, so the flag survives the round trip | not executed | Descriptor.DisabledComesBackEnabled | Descriptor.IntendedRoundTrip |

The parser is parameterised by how an `enable` value reads as a boolean.
`Descriptor.Parse` and `Submodules.GitSubmodule.ParseAll` use `bool()`, as the script
does. With `Descriptor.IntendedTruth` the same scanner keeps every record whole.
