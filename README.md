# multigit / totaliterm in Dafny

This project models the command-line tool multigit and its newer revision,
totaliterm. The tool runs one shell command in many local directories. The
directories are usually git checkouts, grouped under user-chosen *tags*. The
tool can also clone every repository of a GitHub account.

The newer revision (`src/totaliterm/main.py`) keeps a registry in a TOML
configuration file. A `directories` table maps each tag to an ordered array of
absolute paths. Its commands are:

- `add` appends directories to a tag's array. A path is refused if it does not
  exist, if it is not a directory, or if its resolved form is already listed.
  A refused path does not stop the rest of the batch. A filesystem query that
  raises does stop it (see "## Left out").
- `list` prints a tag, or every tag, with its directories numbered from 1.
- `run` visits a tag's directories in stored order. Each visit may ask for
  confirmation, and then starts the command split on whitespace.
- `clone` sorts the account's repository names. It skips every name for which
  the working directory already holds an entry (a directory or a plain file)
  and runs `git clone <options> -- <url>` for the rest.

The earlier revision (`src/multigit/main.py`) has no registry. Its `run` visits
every child of the working directory that holds a `.git` entry, in sorted
order, and passes the command string to the shell. Its `clone` keeps the
listing order.

Modules:

- `Wrappers`: the `Option` type.
- `Sorting`: Python's ordering of strings, and `sorted` as an insertion sort.
  It is proved to be a total order, and `Sort` is proved to be the unique
  ascending permutation of its input.
- `Registry`: the document, its table, and `add`. `Add` is a method whose loop
  appends to the tag's list. It is proved against the specification function
  `AddAll`. `AddAll` is tied to an independent reference: filter the
  acceptable paths, then keep each new directory's first occurrence.
- `Listing`: `list`, as the sequence of header and numbered lines it prints.
- `Runner`: `run` in registry mode, as the visits it makes and the error that
  ends it. It includes Python's `str.split()`.
- `Cloning`: the skip-or-clone loop both revisions share, and the newer
  revision's sorted `clone`.
- `Multigit`: the earlier revision's scan-mode `run` and unsorted `clone`.

The environment is given as inputs:

- The filesystem questions of `add` are three oracles in `Registry.FileSystem`:
  `exists`, `is_dir`, and `resolve().as_posix()`.
- The confirmation prompts are a function from a directory's position to the
  user's answer.
- Whether a process can be started in a directory is an oracle.
- Whether the working directory already holds a name is an oracle.
- The account listing and the `*/.git` matches are input sequences of names.

A command that cannot be started ends `run`. At `src/totaliterm/main.py:221`,
`subprocess.run` raises when the executable is not found, when a stored
directory no longer exists, and when the command splits to nothing (`[]`).
Nothing catches that exception, so the run stops at that directory.
`Runner.VisitFrom` models this with the error `CannotStart`.

## Model

| member | source | states |
|---|---|---|
| `Sorting.LeTotal` | src/totaliterm/main.py:155 | any two strings are comparable under Python's string order |
| `Sorting.LeAntisymmetric` | src/totaliterm/main.py:155 | two strings that are each `<=` the other are equal |
| `Sorting.LeTransitive` | src/totaliterm/main.py:155 | the string order is transitive |
| `Sorting.Sort` | src/totaliterm/main.py:155 | `sorted` returns a rearrangement of its input (same multiset, same length) |
| `Sorting.SortSorted` | src/totaliterm/main.py:155 | the result of `sorted` is ascending |
| `Sorting.SortIsTheSortedPermutation` | src/totaliterm/main.py:155 | every ascending rearrangement of a list equals `Sort` of it, so `Sort` agrees with Python's `sorted` |
| `Sorting.SortStrictlyAscending` | src/multigit/main.py:85 | sorting pairwise distinct strings gives a strictly ascending list without duplicates |
| `Registry.Lookup` | src/totaliterm/main.py:79-81 | `table.get(tag)` succeeds exactly when the tag is a key, and returns that key's list |
| `Registry.SetTag` | src/totaliterm/main.py:82 | after `table[tag] = dirs` the tag maps to `dirs` and every other key looks up as before |
| `Registry.SetTagKeys` | src/totaliterm/main.py:82 | an existing key keeps its position, a new key is appended last, and the key sequence is otherwise unchanged |
| `Registry.SetTagValid` | src/totaliterm/main.py:82 | storing a duplicate-free list keeps keys unique and every list duplicate-free |
| `Registry.SetTagTwice` | src/totaliterm/main.py:82 | storing a key twice leaves the second value |
| `Registry.NoticeTextInjective` | src/totaliterm/main.py:85-91 | the text of a warning determines which path was refused and by which check |
| `Registry.Admit` | src/totaliterm/main.py:84-93 | one path appends its resolved form or nothing, and it appends exactly when the path exists, is a directory and its resolved form is not listed yet |
| `Registry.AddAll` | src/totaliterm/main.py:83-93 | the old list is a prefix of the new list, and the new list is longer by at most the number of input paths (the per-path form is `Registry.PathOutcome`) |
| `Registry.Notices` | src/totaliterm/main.py:83-92 | there are no more warnings than input paths (the per-path form is `Registry.PathOutcome`) |
| `Registry.NoticesConcat` | src/totaliterm/main.py:83-92 | the warnings of a batch are those of its first part, then those of the rest checked against the list the first part left |
| `Registry.PathOutcome` | src/totaliterm/main.py:83-93 | the k-th path, checked against the list the earlier paths left, is either appended with no warning, or leaves the list unchanged and gets exactly one warning naming it and the first check it failed |
| `Registry.Verdict` | src/totaliterm/main.py:84-92 | a path is accepted exactly when it exists, is a directory and its resolved form is not yet listed |
| `Registry.Candidates` | src/totaliterm/main.py:84-89 | a directory is a candidate exactly when some input path exists, is a directory and resolves to it |
| `Registry.Fresh` | src/totaliterm/main.py:90-93 | keeps exactly the candidates not already listed, without duplicates |
| `Registry.AddAllIsFreshCandidates` | src/totaliterm/main.py:83-93 | the batch appends, in input order, the first occurrence of each acceptable resolved path not already listed |
| `Registry.AddMembership` | src/totaliterm/main.py:83-93 | a directory is listed afterwards exactly when it was listed before or some acceptable input resolves to it |
| `Registry.AddedEntriesAreValid` | src/totaliterm/main.py:84-93 | every appended entry is `resolve(p)` of an input `p` that exists and is a directory |
| `Registry.AddKeepsNoDup` | src/totaliterm/main.py:90-93 | a duplicate-free list stays duplicate-free, even when the batch names a directory twice |
| `Registry.AddIdempotent` | src/totaliterm/main.py:90-92 | applying the same batch to its own result changes nothing |
| `Registry.AddAllConcat` | src/totaliterm/main.py:83 | processing a batch equals processing its two parts one after the other |
| `Registry.RejectedPathIsSkipped` | src/totaliterm/main.py:84-92 | a path refused for any reason leaves the list unchanged, and the later paths are processed as if it had not been given |
| `Registry.RepeatedBatch` | src/totaliterm/main.py:90-93 | giving the batch twice on one command line stores the same list as giving it once |
| `Registry.EveryPathAccountedFor` | src/totaliterm/main.py:83-93 | the number of appended entries plus the number of warnings is the number of input paths |
| `Registry.TableOf` | src/totaliterm/main.py:77 | a document without a `directories` table reads as an empty table, one with it as that table |
| `Registry.Existing` | src/totaliterm/main.py:79-81 | a tag that is a key reads as its stored list, a tag that is not as the empty list |
| `Registry.AddToDocument` | src/totaliterm/main.py:77-94 | after `add` the table and the tag exist (possibly with an empty list); the tag holds the batch applied to its old list; other tags and the key order are unchanged, and a new tag comes last |
| `Registry.AddPreservesValid` | src/totaliterm/main.py:77-94 | `add` keeps keys unique and every tag's list duplicate-free |
| `Registry.AddToDocumentIdempotent` | src/totaliterm/main.py:77-94 | running `add` twice with the same arguments writes the same document as running it once |
| `Registry.Add` | src/totaliterm/main.py:70-94 | the loop writes back the document `AddToDocument` describes and echoes the warnings of `Notices`, in input order |
| `Listing.Items` | src/totaliterm/main.py:255-256 | the k-th printed line of a tag carries number `k + 1` and the k-th stored directory |
| `Listing.ListDirs` | src/totaliterm/main.py:250 | a document without a `directories` table prints nothing |
| `Listing.ListAbsentTag` | src/totaliterm/main.py:251-253 | without the all-tags flag, a tag that is not in the table prints nothing |
| `Listing.ListOneTag` | src/totaliterm/main.py:251-256 | without the all-tags flag, the output is the tag's header and its directories numbered from 1, or nothing when the tag is absent |
| `Listing.ListAllTags` | src/totaliterm/main.py:251-254 | with the all-tags flag, the headers are exactly the table's tags in table order, whatever tag was given |
| `Listing.ListAllIsEachTag` | src/totaliterm/main.py:251-256 | with the all-tags flag the output is, tag after tag in table order, what listing that tag alone prints: its header and its own directories numbered from 1 |
| `Listing.ListAllLength` | src/totaliterm/main.py:251-256 | with the all-tags flag, there is one line per tag plus one per stored directory |
| `Listing.ListAfterAdd` | src/totaliterm/main.py:250-256 | for any table with unique keys, after `add` listing the tag shows its header and the updated list, even when nothing was added |
| `Runner.Fields` | src/totaliterm/main.py:219 | every field of `command.split()` is non-empty and contains no whitespace |
| `Runner.FieldsAtSpace` | src/totaliterm/main.py:219 | a whitespace character separates fields, so leading, trailing and repeated whitespace yields no empty field |
| `Runner.FieldsOfWord` | src/totaliterm/main.py:219 | a string without whitespace splits to itself alone |
| `Runner.SplitFrom` | src/totaliterm/main.py:219 | every field split off, with a partly read field in front, is non-empty and contains no whitespace |
| `Runner.SplitJoin` | src/totaliterm/main.py:219 | splitting words joined by single spaces gives the words back |
| `Runner.BlankCommandStops` | src/totaliterm/main.py:219 | a command made only of whitespace splits to the empty argument vector |
| `Runner.VisitFrom` | src/totaliterm/main.py:210-221 | visits are numbered `i + 1` in stored order; a visit runs exactly when `--yes` is given or its prompt is accepted; a declined visit does not stop the loop; the loop stops only at a directory where the accepted command cannot be started |
| `Runner.Run` | src/totaliterm/main.py:210-221 | a missing `directories` table or tag is an error with no visits; otherwise the directories are visited in stored order, numbered from 1; each visit runs the split command exactly when `--yes` is given or its prompt is accepted, and only where it can be started; the run completes when every directory was visited, and otherwise stops with `CannotStart` at the first accepted directory where the command cannot be started |
| `Runner.RunWithoutPrompts` | src/totaliterm/main.py:210-221 | with `--yes`, a command that does not split to nothing, and a command that starts in every directory of the tag, `run` runs it once in each directory, in stored order and numbered from 1, with the same argument vector, and completes |
| `Cloning.CloneSteps` | src/totaliterm/main.py:161-174 | one step per name, in order; a present name is skipped; every other name gets counter `i + 1` out of the full count and the command `git clone <options> -- git@github.com:<user>/<name>.git` |
| `Cloning.NamesOfSteps` | src/totaliterm/main.py:161-164 | the steps visit the names in the given order, one step each |
| `Cloning.ClonesExactlyTheMissing` | src/totaliterm/main.py:165-174 | exactly the names for which the working directory holds no entry are cloned, once each, in order |
| `Cloning.RepoUrlInjective` | src/totaliterm/main.py:156-159 | for one account, different names give different clone URLs |
| `Cloning.ClonePlan` | src/totaliterm/main.py:155-174 | the newer `clone` takes one step per listed name |
| `Cloning.ClonePlanSorted` | src/totaliterm/main.py:155-164 | the newer `clone` visits every listed name once, in ascending order |
| `Multigit.RunCommandPlan` | src/multigit/main.py:83-89 | one visit per `*/.git` match |
| `Multigit.ScanVisitsEachRootOnceInOrder` | src/multigit/main.py:85-89 | git roots are visited in strictly ascending order, each match exactly once, all with the same command string |
| `Multigit.ClonePlan` | src/multigit/main.py:104-122 | one step per listed name |
| `Multigit.CloneKeepsListingOrder` | src/multigit/main.py:104-122 | the earlier `clone` keeps the listing's order and clones exactly the names for which the working directory holds no entry |
| `Multigit.RevisionsDisagreeOnUnsortedListing` | src/multigit/main.py:104 | on the listing `["b", "a"]` the newer revision clones `a` first and the earlier one clones `b` first |

## Left out

- Command-line parsing, help texts and the unused command groups are not modelled. This covers the click decorators, the argparse subparsers, the `config` and `second_level_2` groups, and `multigit.py`, whose functions are empty stubs. None of them have behaviour of their own.
- click's conversion of each `add` argument to `pathlib.Path` is not modelled. It drops a leading `./` and trailing slashes, so `./foo/` is echoed as `foo`. `Registry.Path` is the `str` of the converted path, which is what the warnings print.
- Resolving and creating the configuration file at start-up (`click.get_app_dir`, `mkdir`, `touch`) is filesystem I/O and is not modelled.
- Reading and writing TOML is not modelled. This includes tomlkit's format preservation and multi-line array layout, and the document's other top-level keys, which `add` never touches. The model's document is typed, so a `directories` value that is not a table, or a tag whose value is not an array, cannot be expressed.
- `Registry.Add`: in the source, the tag's array is stored in the table before the loop and then filled in place through that shared reference. The model stores the finished list after the loop. Nothing reads the table in between, so the written document is the same.
- Running processes is not modelled: the user's command, `git clone`, and `gh repo list` with its `--limit` argument. The account listing is an input sequence of names, so `json.loads` is not modelled. The exit statuses of the user's command and of `git clone` are ignored by the source and are absent from the model. `gh repo list` runs with `check=True` (src/totaliterm/main.py:154, src/multigit/main.py:103), so a failed listing, or output that is not valid JSON, ends `clone` with an exception before any step. The model starts from a listing call that succeeded.
- The filesystem queries (`exists`, `is_dir`, `resolve`, `cwd`, `glob`) are oracles or inputs, not a modelled filesystem.
- `Registry.Add`: the oracles `pathExists` and `isDirectory` always answer. In the source, `Path.exists()` and `Path.is_dir()` swallow only the errors that mean "no such entry" (ENOENT, ENOTDIR, EBADF, ELOOP) and re-raise any other `OSError`, such as a `PermissionError` for a path under a directory the user cannot search (src/totaliterm/main.py:84, :87). That exception ends `add` before `config_file.write(doc)` at line 94, so nothing is written, not even the paths accepted earlier in the batch. The model has no such outcome: a path whose query would raise can only be given as one that does not exist or is not a directory, and `Registry.RejectedPathIsSkipped` and `Registry.PathOutcome` speak only of queries that answer.
- Lines that only inform are not modelled: colours, rich printing, `username: ...`, the repository name echoed before each clone step, and `cmd_repo: ...`. Printed listings are `Listing.Line` values, not text. The texts of `add`'s warnings are `Registry.NoticeText` of the path as click converted it.
- `Runner.Run`: `click.confirm` is an answer function indexed by directory position. Its default answer and its abort at end of input are not modelled.
- `Multigit.ScanVisitsEachRootOnceInOrder`: roots are ordered by code point, which is the order `pathlib` gives only on POSIX. On Windows `pathlib` compares case-folded parts, so children `B` and `a` are visited `a` first; that order is not modelled.
