/**
 * The directory registry of totaliterm and its `add` command.
 *
 * The configuration document holds a `directories` table that maps a tag to an
 * ordered array of absolute directory paths.  TOML keys are unique and a table
 * keeps its keys in insertion order, so a table is a sequence of entries.
 * `add` checks each input path against the filesystem, which is given here as
 * three oracles (`exists`, `is_dir`, `resolve().as_posix()`), and appends the
 * resolved form of every path that passes.
 */
module Registry {
  import opened Wrappers
  import opened Sorting

  /**
   * A path argument as `add` receives it: click has already turned it into a
   * `pathlib.Path`, and this is that object's `str`, which the warnings print.
   */
  type Path = string

  datatype Entry = Entry(tag: string, dirs: seq<string>)

  /** The `directories` table, in the order its keys appear in the file. */
  type Table = seq<Entry>

  /** The part of the configuration document the tool reads and writes. */
  datatype Document = Document(directories: Option<Table>)

  /** The filesystem as `add` sees it. */
  datatype FileSystem = FileSystem(
    pathExists: Path -> bool,
    isDirectory: Path -> bool,
    resolved: Path -> string)

  function Tags(table: Table): (r: seq<string>)
    ensures |r| == |table|
  {
    if table == [] then [] else [table[0].tag] + Tags(table[1..])
  }

  predicate UniqueTags(table: Table) {
    NoDup(Tags(table))
  }

  lemma UniqueTagsTail(table: Table)
    requires UniqueTags(table) && table != []
    ensures UniqueTags(table[1..]) && table[0].tag !in Tags(table[1..])
  {
    var rest := Tags(table[1..]);
    assert Tags(table) == [table[0].tag] + rest;
    forall i, j | 0 <= i < j < |rest| ensures rest[i] != rest[j] {
      assert rest[i] == Tags(table)[i + 1] && rest[j] == Tags(table)[j + 1];
    }
    forall i | 0 <= i < |rest| ensures rest[i] != table[0].tag {
      assert rest[i] == Tags(table)[i + 1] && table[0].tag == Tags(table)[0];
    }
  }

  /** A table as `add` keeps it: unique keys, and no path twice under one tag. */
  predicate Valid(table: Table) {
    UniqueTags(table) && forall e :: e in table ==> NoDup(e.dirs)
  }

  /** `table.get(tag)`. */
  function Lookup(table: Table, tag: string): (r: Option<seq<string>>)
    ensures r.Some? <==> tag in Tags(table)
    ensures r.Some? ==> Entry(tag, r.value) in table
  {
    if table == [] then None
    else if table[0].tag == tag then Some(table[0].dirs)
    else Lookup(table[1..], tag)
  }

  /**
   * `table[tag] = dirs`: an existing key keeps its place and gets the new
   * value; a new key goes at the end.
   */
  function SetTag(table: Table, tag: string, dirs: seq<string>): (r: Table)
    ensures Lookup(r, tag) == Some(dirs)
    ensures forall t :: t != tag ==> Lookup(r, t) == Lookup(table, t)
  {
    if table == [] then [Entry(tag, dirs)]
    else if table[0].tag == tag then [Entry(tag, dirs)] + table[1..]
    else [table[0]] + SetTag(table[1..], tag, dirs)
  }

  /** Setting a key keeps the order of the keys, a new key coming last. */
  lemma {:induction false} SetTagKeys(table: Table, tag: string, dirs: seq<string>)
    ensures Tags(SetTag(table, tag, dirs)) == if tag in Tags(table) then Tags(table) else Tags(table) + [tag]
  {
    if table != [] {
      var r := SetTag(table, tag, dirs);
      assert Tags(table) == [table[0].tag] + Tags(table[1..]);
      if table[0].tag != tag {
        SetTagKeys(table[1..], tag, dirs);
        assert r == [table[0]] + SetTag(table[1..], tag, dirs);
        assert Tags(r) == [table[0].tag] + Tags(SetTag(table[1..], tag, dirs));
      } else {
        assert r == [Entry(tag, dirs)] + table[1..];
        assert Tags(r) == [tag] + Tags(table[1..]);
      }
    }
  }

  /** Setting a key touches no entry but its own. */
  lemma {:induction false} SetTagEntries(table: Table, tag: string, dirs: seq<string>)
    ensures forall e :: e in SetTag(table, tag, dirs) ==> e in table || e == Entry(tag, dirs)
  {
    if table != [] && table[0].tag != tag {
      SetTagEntries(table[1..], tag, dirs);
    }
  }

  lemma SetTagValid(table: Table, tag: string, dirs: seq<string>)
    requires Valid(table) && NoDup(dirs)
    ensures Valid(SetTag(table, tag, dirs))
  {
    SetTagKeys(table, tag, dirs);
    SetTagEntries(table, tag, dirs);
    if tag !in Tags(table) {
      NoDupAppend(Tags(table), [tag]);
    }
  }

  /** Setting a key twice leaves the second value. */
  lemma {:induction false} SetTagTwice(table: Table, tag: string, d1: seq<string>, d2: seq<string>)
    ensures SetTag(SetTag(table, tag, d1), tag, d2) == SetTag(table, tag, d2)
  {
    if table != [] && table[0].tag != tag {
      SetTagTwice(table[1..], tag, d1, d2);
      var r := SetTag(table, tag, d1);
      assert r[0] == table[0] && r[1..] == SetTag(table[1..], tag, d1);
    }
  }

  // ---------------------------------------------------------------------
  // One path of the batch

  /** Why `add` refused a path, with the message it echoes. */
  datatype Rejection = Missing | NotDirectory | AlreadyListed

  datatype Notice = Notice(path: Path, reason: Rejection)

  /** The warning echoed for a refused path: the path, then the reason. */
  function NoticeText(n: Notice): string {
    n.path + ReasonText(n.reason)
  }

  function ReasonText(reason: Rejection): string {
    match reason
    case Missing => " does not exist."
    case NotDirectory => " is not a directory."
    case AlreadyListed => " is already in the list."
  }

  lemma CharFromEnd(p: string, q: string, i: nat)
    ensures 0 < i <= |q| ==> (p + q)[|p + q| - i] == q[|q| - i]
  {
  }

  /** A warning's text tells which path was refused and why. */
  lemma NoticeTextInjective(a: Notice, b: Notice)
    ensures NoticeText(a) == NoticeText(b) ==> a == b
  {
    if NoticeText(a) == NoticeText(b) {
      var s, ra, rb := NoticeText(a), ReasonText(a.reason), ReasonText(b.reason);
      assert s == a.path + ra == b.path + rb;
      if a.reason != b.reason {
        // The three reason texts already differ in their last five characters.
        var i := if Missing in {a.reason, b.reason} && AlreadyListed in {a.reason, b.reason} then 5 else 2;
        CharFromEnd(a.path, ra, i);
        CharFromEnd(b.path, rb, i);
        assert false;
      }
      assert a.path == s[..|a.path|] == b.path;
    }
  }

  /** The three checks of the loop body, in the order the source makes them. */
  function Verdict(dirs: seq<string>, p: Path, fs: FileSystem): (r: Option<Rejection>)
    ensures r.None? <==> fs.pathExists(p) && fs.isDirectory(p) && fs.resolved(p) !in dirs
  {
    if !fs.pathExists(p) then Some(Missing)
    else if !fs.isDirectory(p) then Some(NotDirectory)
    else if fs.resolved(p) in dirs then Some(AlreadyListed)
    else None
  }

  /**
   * The tag's list after looking at one path: it grows by the path's resolved
   * form exactly when the path exists, is a directory and is not listed yet.
   */
  function Admit(dirs: seq<string>, p: Path, fs: FileSystem): (r: seq<string>)
    ensures r == dirs || r == dirs + [fs.resolved(p)]
    ensures r != dirs <==> Acceptable(p, fs) && fs.resolved(p) !in dirs
  {
    if Verdict(dirs, p, fs).None? then dirs + [fs.resolved(p)] else dirs
  }

  /** The tag's list after the whole batch: each path is checked against the list as it stands then. */
  function AddAll(dirs: seq<string>, paths: seq<Path>, fs: FileSystem): (r: seq<string>)
    ensures dirs <= r
    ensures |r| <= |dirs| + |paths|
    decreases |paths|
  {
    if paths == [] then dirs else AddAll(Admit(dirs, paths[0], fs), paths[1..], fs)
  }

  /** The warnings echoed for the batch, in input order. */
  function Notices(dirs: seq<string>, paths: seq<Path>, fs: FileSystem): (r: seq<Notice>)
    ensures |r| <= |paths|
    decreases |paths|
  {
    if paths == [] then []
    else
      var v := Verdict(dirs, paths[0], fs);
      (if v.Some? then [Notice(paths[0], v.value)] else []) + Notices(Admit(dirs, paths[0], fs), paths[1..], fs)
  }

  // ---------------------------------------------------------------------
  // A reference definition of the batch: filter, then drop repeats

  predicate Acceptable(p: Path, fs: FileSystem) {
    fs.pathExists(p) && fs.isDirectory(p)
  }

  /** The resolved forms of the paths that exist and are directories, in input order. */
  function Candidates(paths: seq<Path>, fs: FileSystem): (r: seq<string>)
    ensures forall x :: x in r <==> exists p :: p in paths && Acceptable(p, fs) && fs.resolved(p) == x
  {
    if paths == [] then []
    else
      assert forall p :: p in paths <==> p == paths[0] || p in paths[1..];
      (if Acceptable(paths[0], fs) then [fs.resolved(paths[0])] else []) + Candidates(paths[1..], fs)
  }

  /** The first occurrence of each value of `cs` that is not in `seen`. */
  function Fresh(cs: seq<string>, seen: seq<string>): (r: seq<string>)
    ensures forall x :: x in r <==> x in cs && x !in seen
    ensures NoDup(r)
  {
    if cs == [] then []
    else if cs[0] in seen then Fresh(cs[1..], seen)
    else
      var rest := Fresh(cs[1..], seen + [cs[0]]);
      NoDupAppend([cs[0]], rest);
      [cs[0]] + rest
  }

  lemma {:induction false} NothingFresh(cs: seq<string>, seen: seq<string>)
    requires forall x :: x in cs ==> x in seen
    ensures Fresh(cs, seen) == []
  {
    if cs != [] {
      assert cs[0] in cs;
      NothingFresh(cs[1..], seen);
    }
  }

  /**
   * The batch appends, in input order and without repeats, the resolved
   * form of every acceptable path that the list did not hold already.
   */
  lemma {:induction false} AddAllIsFreshCandidates(dirs: seq<string>, paths: seq<Path>, fs: FileSystem)
    ensures AddAll(dirs, paths, fs) == dirs + Fresh(Candidates(paths, fs), dirs)
    decreases |paths|
  {
    if paths != [] {
      var p, rest := paths[0], paths[1..];
      AddAllIsFreshCandidates(Admit(dirs, p, fs), rest, fs);
      var c := Candidates(rest, fs);
      assert AddAll(dirs, paths, fs) == AddAll(Admit(dirs, p, fs), rest, fs);
      if Acceptable(p, fs) {
        var x := fs.resolved(p);
        assert Candidates(paths, fs) == [x] + c;
        assert ([x] + c)[0] == x && ([x] + c)[1..] == c;
        if x in dirs {
          assert Admit(dirs, p, fs) == dirs;
          assert Fresh([x] + c, dirs) == Fresh(c, dirs);
        } else {
          assert Admit(dirs, p, fs) == dirs + [x];
          assert Fresh([x] + c, dirs) == [x] + Fresh(c, dirs + [x]);
          assert dirs + [x] + Fresh(c, dirs + [x]) == dirs + ([x] + Fresh(c, dirs + [x]));
        }
      } else {
        assert Admit(dirs, p, fs) == dirs;
        assert Candidates(paths, fs) == c;
      }
    }
  }

  /** A path ends up in the list exactly when it was there or some acceptable input resolves to it. */
  lemma AddMembership(dirs: seq<string>, paths: seq<Path>, fs: FileSystem, x: string)
    ensures x in AddAll(dirs, paths, fs) <==>
            x in dirs || exists p :: p in paths && Acceptable(p, fs) && fs.resolved(p) == x
  {
    AddAllIsFreshCandidates(dirs, paths, fs);
  }

  /** Every entry the batch appends is the resolved form of an input that exists and is a directory. */
  lemma AddedEntriesAreValid(dirs: seq<string>, paths: seq<Path>, fs: FileSystem)
    ensures forall k :: |dirs| <= k < |AddAll(dirs, paths, fs)| ==>
      exists p :: p in paths && fs.pathExists(p) && fs.isDirectory(p) && fs.resolved(p) == AddAll(dirs, paths, fs)[k]
  {
    AddAllIsFreshCandidates(dirs, paths, fs);
    var r := AddAll(dirs, paths, fs);
    forall k | |dirs| <= k < |r|
      ensures exists p :: p in paths && fs.pathExists(p) && fs.isDirectory(p) && fs.resolved(p) == r[k]
    {
      assert r[k] == Fresh(Candidates(paths, fs), dirs)[k - |dirs|];
      assert r[k] in Candidates(paths, fs);
    }
  }

  lemma {:induction false} NoDupAppend(a: seq<string>, b: seq<string>)
    requires NoDup(a) && NoDup(b)
    requires forall x :: x in b ==> x !in a
    ensures NoDup(a + b)
  {
    var c := a + b;
    forall i, j | 0 <= i < j < |c| ensures c[i] != c[j] {
      if i < |a| && j >= |a| {
        assert c[j] == b[j - |a|];
        assert c[j] in b;
      } else if i >= |a| {
        assert c[i] == b[i - |a|] && c[j] == b[j - |a|];
      }
    }
  }

  /** A list without duplicates keeps none, even when the batch names a directory twice. */
  lemma AddKeepsNoDup(dirs: seq<string>, paths: seq<Path>, fs: FileSystem)
    requires NoDup(dirs)
    ensures NoDup(AddAll(dirs, paths, fs))
  {
    AddAllIsFreshCandidates(dirs, paths, fs);
    NoDupAppend(dirs, Fresh(Candidates(paths, fs), dirs));
  }

  /** Running the same batch again on the result changes nothing. */
  lemma AddIdempotent(dirs: seq<string>, paths: seq<Path>, fs: FileSystem)
    ensures AddAll(AddAll(dirs, paths, fs), paths, fs) == AddAll(dirs, paths, fs)
  {
    var r := AddAll(dirs, paths, fs);
    AddAllIsFreshCandidates(dirs, paths, fs);
    AddAllIsFreshCandidates(r, paths, fs);
    NothingFresh(Candidates(paths, fs), r);
  }

  /** Processing a batch is processing its parts one after the other. */
  lemma {:induction false} AddAllConcat(dirs: seq<string>, a: seq<Path>, b: seq<Path>, fs: FileSystem)
    ensures AddAll(dirs, a + b, fs) == AddAll(AddAll(dirs, a, fs), b, fs)
    decreases |a|
  {
    if a != [] {
      assert (a + b)[0] == a[0] && (a + b)[1..] == a[1..] + b;
      AddAllConcat(Admit(dirs, a[0], fs), a[1..], b, fs);
    } else {
      assert a + b == b;
    }
  }

  /**
   * A rejection is not fatal: a path refused for any of the three reasons
   * leaves the list as it was and the rest of the batch is processed as if
   * that path had not been given.
   */
  lemma RejectedPathIsSkipped(dirs: seq<string>, before: seq<Path>, p: Path, after: seq<Path>, fs: FileSystem)
    requires Verdict(AddAll(dirs, before, fs), p, fs).Some?
    ensures AddAll(dirs, before + [p] + after, fs) == AddAll(dirs, before + after, fs)
  {
    AddAllConcat(dirs, before + [p], after, fs);
    AddAllConcat(dirs, before, [p], fs);
    AddAllConcat(dirs, before, after, fs);
    assert [p][1..] == [];
  }

  /** Giving the whole batch twice on one command line stores each directory once. */
  lemma RepeatedBatch(dirs: seq<string>, paths: seq<Path>, fs: FileSystem)
    ensures AddAll(dirs, paths + paths, fs) == AddAll(dirs, paths, fs)
  {
    AddAllConcat(dirs, paths, paths, fs);
    AddIdempotent(dirs, paths, fs);
  }

  /** Every path of the batch is either appended or reported, never both. */
  lemma {:induction false} EveryPathAccountedFor(dirs: seq<string>, paths: seq<Path>, fs: FileSystem)
    ensures |AddAll(dirs, paths, fs)| - |dirs| + |Notices(dirs, paths, fs)| == |paths|
    decreases |paths|
  {
    if paths != [] {
      EveryPathAccountedFor(Admit(dirs, paths[0], fs), paths[1..], fs);
    }
  }

  /**
   * The warnings of a batch are those of its first part, then those of the
   * rest, checked against the list as the first part left it.
   */
  lemma {:induction false} NoticesConcat(dirs: seq<string>, a: seq<Path>, b: seq<Path>, fs: FileSystem)
    ensures Notices(dirs, a + b, fs) == Notices(dirs, a, fs) + Notices(AddAll(dirs, a, fs), b, fs)
    decreases |a|
  {
    if a != [] {
      var next := Admit(dirs, a[0], fs);
      var v := Verdict(dirs, a[0], fs);
      var head := if v.Some? then [Notice(a[0], v.value)] else [];
      assert (a + b)[0] == a[0] && (a + b)[1..] == a[1..] + b;
      NoticesConcat(next, a[1..], b, fs);
      assert Notices(dirs, a + b, fs) == head + Notices(next, a[1..] + b, fs);
      assert Notices(dirs, a, fs) == head + Notices(next, a[1..], fs);
      assert AddAll(dirs, a, fs) == AddAll(next, a[1..], fs);
    } else {
      assert a + b == b;
    }
  }

  /**
   * The fate of the k-th path of a batch, checked against the list as the
   * earlier paths left it: either its resolved form is appended and nothing
   * is echoed, or the list is unchanged and exactly one warning is echoed,
   * naming the path and the first check it failed.
   */
  lemma PathOutcome(dirs: seq<string>, paths: seq<Path>, k: nat, fs: FileSystem)
    requires k < |paths|
    ensures var before := AddAll(dirs, paths[..k], fs);
            var v := Verdict(before, paths[k], fs);
            && AddAll(dirs, paths[..k + 1], fs) == (if v.None? then before + [fs.resolved(paths[k])] else before)
            && Notices(dirs, paths[..k + 1], fs) ==
               Notices(dirs, paths[..k], fs) + (if v.Some? then [Notice(paths[k], v.value)] else [])
  {
    assert paths[..k + 1] == paths[..k] + [paths[k]];
    AddAllConcat(dirs, paths[..k], [paths[k]], fs);
    NoticesConcat(dirs, paths[..k], [paths[k]], fs);
    assert [paths[k]][1..] == [];
  }

  /** One turn of the loop of `add`, by the branch it takes. */
  lemma AddStep(dirs: seq<string>, paths: seq<Path>, i: nat, fs: FileSystem, reason: Option<Rejection>)
    requires i < |paths|
    requires reason == Verdict(dirs, paths[i], fs)
    ensures reason.Some? ==>
            && AddAll(dirs, paths[i..], fs) == AddAll(dirs, paths[i + 1..], fs)
            && Notices(dirs, paths[i..], fs) == [Notice(paths[i], reason.value)] + Notices(dirs, paths[i + 1..], fs)
    ensures reason.None? ==>
            && AddAll(dirs, paths[i..], fs) == AddAll(dirs + [fs.resolved(paths[i])], paths[i + 1..], fs)
            && Notices(dirs, paths[i..], fs) == Notices(dirs + [fs.resolved(paths[i])], paths[i + 1..], fs)
  {
    assert paths[i..][0] == paths[i] && paths[i..][1..] == paths[i + 1..];
  }

  // ---------------------------------------------------------------------
  // The document before and after `add`

  /** `doc.get('directories', tomlkit.table())`. */
  function TableOf(doc: Document): (r: Table)
    ensures doc.directories.None? ==> r == []
    ensures doc.directories.Some? ==> r == doc.directories.value
  {
    doc.directories.GetOr([])
  }

  /** The tag's list as `add` finds it; a missing table or key reads as empty. */
  function Existing(doc: Document, tag: string): (r: seq<string>)
    ensures tag in Tags(TableOf(doc)) ==> Entry(tag, r) in TableOf(doc)
    ensures tag !in Tags(TableOf(doc)) ==> r == []
  {
    Lookup(TableOf(doc), tag).GetOr([])
  }

  /**
   * The document `add` writes back: the table and the key exist afterwards,
   * even when every path was refused; the tag's list is the batch applied to
   * its old list; every other tag, and the order of the keys, is unchanged
   * except that a new tag comes last.
   */
  function AddToDocument(doc: Document, tag: string, paths: seq<Path>, fs: FileSystem): (r: Document)
    ensures r.directories.Some?
    ensures Lookup(r.directories.value, tag) == Some(AddAll(Existing(doc, tag), paths, fs))
    ensures forall t :: t != tag ==> Lookup(r.directories.value, t) == Lookup(TableOf(doc), t)
    ensures Tags(r.directories.value) ==
            if tag in Tags(TableOf(doc)) then Tags(TableOf(doc)) else Tags(TableOf(doc)) + [tag]
  {
    var dirs := AddAll(Existing(doc, tag), paths, fs);
    SetTagKeys(TableOf(doc), tag, dirs);
    Document(Some(SetTag(TableOf(doc), tag, dirs)))
  }

  /** `add` keeps the registry's invariants. */
  lemma AddPreservesValid(doc: Document, tag: string, paths: seq<Path>, fs: FileSystem)
    requires Valid(TableOf(doc))
    ensures Valid(AddToDocument(doc, tag, paths, fs).directories.value)
  {
    var table := TableOf(doc);
    var old_ := Existing(doc, tag);
    if Lookup(table, tag).Some? {
      var i :| 0 <= i < |table| && table[i] == Entry(tag, old_);
    }
    AddKeepsNoDup(old_, paths, fs);
    SetTagValid(table, tag, AddAll(old_, paths, fs));
  }

  /** Running `add` twice with the same arguments writes the same document as running it once. */
  lemma AddToDocumentIdempotent(doc: Document, tag: string, paths: seq<Path>, fs: FileSystem)
    ensures AddToDocument(AddToDocument(doc, tag, paths, fs), tag, paths, fs) == AddToDocument(doc, tag, paths, fs)
  {
    var once := AddToDocument(doc, tag, paths, fs);
    var r := AddAll(Existing(doc, tag), paths, fs);
    assert Existing(once, tag) == r;
    AddIdempotent(Existing(doc, tag), paths, fs);
    SetTagTwice(TableOf(doc), tag, r, r);
  }

  lemma AppendNotice(notices: seq<Notice>, n: Notice, rest: seq<Notice>)
    ensures notices + ([n] + rest) == (notices + [n]) + rest
  {
  }

  /**
   * The `add` command on a document read from the configuration file: it
   * makes sure the table and the tag's array exist, then walks the batch,
   * appending to the array or echoing why a path was refused.  The result is
   * the document written back and the warnings, in order.
   */
  method Add(doc: Document, tag: string, paths: seq<Path>, fs: FileSystem) returns (written: Document, notices: seq<Notice>)
    ensures written == AddToDocument(doc, tag, paths, fs)
    ensures notices == Notices(Existing(doc, tag), paths, fs)
  {
    var table := doc.directories.GetOr([]);
    var dirArray := Lookup(table, tag).GetOr([]);
    ghost var initial := dirArray;
    notices := [];
    for i := 0 to |paths|
      invariant AddAll(dirArray, paths[i..], fs) == AddAll(initial, paths, fs)
      invariant notices + Notices(dirArray, paths[i..], fs) == Notices(initial, paths, fs)
    {
      var p := paths[i];
      AddStep(dirArray, paths, i, fs, Verdict(dirArray, p, fs));
      if !fs.pathExists(p) {
        AppendNotice(notices, Notice(p, Missing), Notices(dirArray, paths[i + 1..], fs));
        notices := notices + [Notice(p, Missing)];
        continue;
      }
      if !fs.isDirectory(p) {
        AppendNotice(notices, Notice(p, NotDirectory), Notices(dirArray, paths[i + 1..], fs));
        notices := notices + [Notice(p, NotDirectory)];
        continue;
      }
      if fs.resolved(p) in dirArray {
        AppendNotice(notices, Notice(p, AlreadyListed), Notices(dirArray, paths[i + 1..], fs));
        notices := notices + [Notice(p, AlreadyListed)];
        continue;
      }
      dirArray := dirArray + [fs.resolved(p)];
    }
    // The source stores the array in the table before the loop and fills it
    // in place; nothing reads the table in between, so storing it now gives
    // the same document.
    written := Document(Some(SetTag(table, tag, dirArray)));
  }
}
