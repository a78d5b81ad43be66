/**
 * totaliterm's `run` command: the directories of one tag, in stored order,
 * each announced with its 1-based number, optionally confirmed, and then the
 * command, split on whitespace, started with that directory as its working
 * directory.  The exit status is ignored.  A lookup of the table or the tag
 * that fails is an error, and so is a process that cannot be started at all:
 * the source does not catch that exception, so the run stops there.
 */
module Runner {
  import opened Wrappers
  import opened Registry

  // ---------------------------------------------------------------------
  // `command.split()`

  /** The characters Python's `str.split()` treats as whitespace, by code point. */
  predicate IsSpace(c: char) {
    var n := c as int;
    || 0x09 <= n <= 0x0D || 0x1C <= n <= 0x20 || n == 0x85 || n == 0xA0 || n == 0x1680
    || 0x2000 <= n <= 0x200A || n == 0x2028 || n == 0x2029 || n == 0x202F || n == 0x205F
    || n == 0x3000
  }

  predicate NoSpace(w: string) {
    forall i :: 0 <= i < |w| ==> !IsSpace(w[i])
  }

  /** A field of a split: non-empty and without whitespace. */
  predicate IsWord(w: string) {
    w != [] && NoSpace(w)
  }

  /** Splits `s`, with `word` the part of a field read so far. */
  function SplitFrom(s: string, word: string): (r: seq<string>)
    requires NoSpace(word)
    ensures forall k :: 0 <= k < |r| ==> IsWord(r[k])
    decreases |s|
  {
    if s == [] then (if word == [] then [] else [word])
    else if IsSpace(s[0]) then (if word == [] then [] else [word]) + SplitFrom(s[1..], [])
    else SplitFrom(s[1..], word + [s[0]])
  }

  /** `s.split()`: the maximal runs of non-whitespace characters, in order. */
  function Fields(s: string): (r: seq<string>)
    ensures forall k :: 0 <= k < |r| ==> IsWord(r[k])
  {
    SplitFrom(s, [])
  }

  /** Splitting across a whitespace character, with `word` the part of a field read before `a`. */
  lemma {:induction false} SplitAtSpace(a: string, c: char, b: string, word: string)
    requires IsSpace(c) && NoSpace(word)
    ensures SplitFrom(a + [c] + b, word) == SplitFrom(a, word) + SplitFrom(b, [])
    decreases |a|
  {
    var s := a + [c] + b;
    if a == [] {
      assert s[0] == c && s[1..] == b;
    } else {
      assert s[0] == a[0] && s[1..] == a[1..] + [c] + b;
      if IsSpace(a[0]) {
        SplitAtSpace(a[1..], c, b, []);
      } else {
        SplitAtSpace(a[1..], c, b, word + [a[0]]);
      }
    }
  }

  /**
   * A whitespace character separates fields: the fields on its two sides are
   * split independently, so leading, trailing and repeated whitespace yields
   * no empty field.
   */
  lemma FieldsAtSpace(a: string, c: char, b: string)
    requires IsSpace(c)
    ensures Fields(a + [c] + b) == Fields(a) + Fields(b)
  {
    SplitAtSpace(a, c, b, []);
  }

  /** A single word is a single field. */
  lemma FieldsOfWord(w: string)
    requires IsWord(w)
    ensures Fields(w) == [w]
  {
    SplitAcrossWord(w, [], []);
    assert w + [] == w && [] + w == w;
  }

  /** The words joined by single spaces. */
  function JoinWords(ws: seq<string>): string {
    if ws == [] then []
    else if |ws| == 1 then ws[0]
    else ws[0] + " " + JoinWords(ws[1..])
  }

  lemma {:induction false} SplitAcrossWord(w: string, rest: string, word: string)
    requires NoSpace(w) && NoSpace(word)
    ensures SplitFrom(w + rest, word) == SplitFrom(rest, word + w)
    decreases |w|
  {
    if w != [] {
      assert (w + rest)[0] == w[0] && (w + rest)[1..] == w[1..] + rest;
      assert word + [w[0]] + w[1..] == word + w;
      SplitAcrossWord(w[1..], rest, word + [w[0]]);
    } else {
      assert w + rest == rest && word + w == word;
    }
  }

  /** Splitting words joined by spaces gives the words back. */
  lemma {:induction false} SplitJoin(ws: seq<string>)
    requires forall k :: 0 <= k < |ws| ==> IsWord(ws[k])
    ensures Fields(JoinWords(ws)) == ws
  {
    if |ws| == 1 {
      SplitAcrossWord(ws[0], [], []);
      assert ws[0] + [] == ws[0] && [] + ws[0] == ws[0];
    } else if |ws| > 1 {
      var rest := JoinWords(ws[1..]);
      assert ws[0] + " " + rest == ws[0] + (" " + rest);
      SplitAcrossWord(ws[0], " " + rest, []);
      assert [] + ws[0] == ws[0];
      assert (" " + rest)[0] == ' ' && (" " + rest)[1..] == rest;
      SplitJoin(ws[1..]);
      assert ws == [ws[0]] + ws[1..];
    }
  }

  // ---------------------------------------------------------------------
  // The loop over the tag's directories

  /** What happened at one directory; `number` is the printed `i + 1`. */
  datatype Visit =
    | Ran(number: nat, dir: string, argv: seq<string>)
    | Declined(number: nat, dir: string)

  datatype RunError =
    | NoDirectoriesTable
    | UnknownTag(tag: string)
    | CannotStart(number: nat, dir: string)

  /** The visits made, and the error that ended the run early, if any. */
  datatype RunReport = RunReport(visits: seq<Visit>, error: Option<RunError>)

  /**
   * The oracles of the run: `confirm(i)` is the answer to the prompt shown
   * for the directory at position `i`; `canStart(argv, dir)` says whether a
   * process for `argv` can be started in `dir` (the executable is found and
   * the directory exists).
   */
  function VisitFrom(dirs: seq<string>, k: nat, argv: seq<string>, yes: bool,
                     confirm: nat -> bool, canStart: (seq<string>, string) -> bool): (r: RunReport)
    requires k <= |dirs|
    ensures k + |r.visits| <= |dirs|
    ensures forall j :: 0 <= j < |r.visits| ==>
      && r.visits[j].number == k + j + 1
      && r.visits[j].dir == dirs[k + j]
      && (r.visits[j].Ran? <==> yes || confirm(k + j))
      && (r.visits[j].Ran? ==> r.visits[j].argv == argv && argv != [] && canStart(argv, dirs[k + j]))
    ensures r.error.None? ==> k + |r.visits| == |dirs|
    ensures r.error.Some? ==>
      var n := k + |r.visits|;
      && n < |dirs|
      && r.error.value == CannotStart(n + 1, dirs[n])
      && (yes || confirm(n))
      && (argv == [] || !canStart(argv, dirs[n]))
    decreases |dirs| - k
  {
    if k == |dirs| then RunReport([], None)
    else if !yes && !confirm(k) then
      var rest := VisitFrom(dirs, k + 1, argv, yes, confirm, canStart);
      RunReport([Declined(k + 1, dirs[k])] + rest.visits, rest.error)
    else if argv == [] || !canStart(argv, dirs[k]) then
      RunReport([], Some(CannotStart(k + 1, dirs[k])))
    else
      var rest := VisitFrom(dirs, k + 1, argv, yes, confirm, canStart);
      RunReport([Ran(k + 1, dirs[k], argv)] + rest.visits, rest.error)
  }

  /**
   * `run`: the key lookups, then the loop over the tag's directories.  Every
   * directory of the tag is visited once, in stored order, numbered from 1; a
   * declined prompt skips only that directory; the run ends early only at a
   * directory where the command could not be started.
   */
  function Run(doc: Document, command: string, tag: string, yes: bool,
               confirm: nat -> bool, canStart: (seq<string>, string) -> bool): (r: RunReport)
    ensures doc.directories.None? ==> r == RunReport([], Some(NoDirectoriesTable))
    ensures doc.directories.Some? && Lookup(doc.directories.value, tag).None? ==>
              r == RunReport([], Some(UnknownTag(tag)))
    ensures doc.directories.Some? && Lookup(doc.directories.value, tag).Some? ==>
              var dirs := Lookup(doc.directories.value, tag).value;
              && |r.visits| <= |dirs|
              && (forall j :: 0 <= j < |r.visits| ==>
                   r.visits[j].number == j + 1 && r.visits[j].dir == dirs[j] &&
                   (r.visits[j].Ran? <==> yes || confirm(j)) &&
                   (r.visits[j].Ran? ==>
                      r.visits[j].argv == Fields(command) && Fields(command) != [] &&
                      canStart(Fields(command), dirs[j])))
              && (r.error.None? ==> |r.visits| == |dirs|)
              && (r.error.Some? ==>
                   var n := |r.visits|;
                   && n < |dirs|
                   && r.error.value == CannotStart(n + 1, dirs[n])
                   && (yes || confirm(n))
                   && (Fields(command) == [] || !canStart(Fields(command), dirs[n])))
  {
    match doc.directories
    case None => RunReport([], Some(NoDirectoriesTable))
    case Some(table) =>
      match Lookup(table, tag)
      case None => RunReport([], Some(UnknownTag(tag)))
      case Some(dirs) => VisitFrom(dirs, 0, Fields(command), yes, confirm, canStart)
  }

  /**
   * With `--yes` and a command that starts everywhere, the command is run
   * once in each directory, in stored order, with the same argument vector.
   */
  lemma RunWithoutPrompts(doc: Document, command: string, tag: string,
                          confirm: nat -> bool, canStart: (seq<string>, string) -> bool)
    requires doc.directories.Some? && Lookup(doc.directories.value, tag).Some?
    requires Fields(command) != []
    requires forall d :: d in Lookup(doc.directories.value, tag).value ==> canStart(Fields(command), d)
    ensures var dirs := Lookup(doc.directories.value, tag).value;
            Run(doc, command, tag, true, confirm, canStart) ==
            RunReport(seq(|dirs|, j requires 0 <= j < |dirs| => Ran(j + 1, dirs[j], Fields(command))), None)
  {
    var dirs := Lookup(doc.directories.value, tag).value;
    var r := Run(doc, command, tag, true, confirm, canStart);
    assert r == VisitFrom(dirs, 0, Fields(command), true, confirm, canStart);
  }

  /** A command made only of whitespace splits to nothing, so the first directory confirmed stops the run. */
  lemma {:induction false} BlankCommandStops(s: string)
    requires forall i :: 0 <= i < |s| ==> IsSpace(s[i])
    ensures Fields(s) == []
  {
    BlankSplit(s);
  }

  lemma {:induction false} BlankSplit(s: string)
    requires forall i :: 0 <= i < |s| ==> IsSpace(s[i])
    ensures SplitFrom(s, []) == []
    decreases |s|
  {
    if s != [] {
      assert IsSpace(s[0]);
      BlankSplit(s[1..]);
    }
  }
}
