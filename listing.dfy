/**
 * totaliterm's `list` command: the tags of the `directories` table in file
 * order, each as a header line followed by its directories numbered from 1.
 * Without the all-tags flag only the requested tag is shown.
 */
module Listing {
  import opened Wrappers
  import opened Registry

  /** A printed line: `<tag>:` or `<number>: <dir>`. */
  datatype Line = Header(tag: string) | Item(number: nat, dir: string)

  /** The numbered lines for `dirs`, numbering from `first`. */
  function Items(dirs: seq<string>, first: nat): (r: seq<Line>)
    ensures |r| == |dirs|
    ensures forall k :: 0 <= k < |dirs| ==> r[k] == Item(first + k, dirs[k])
  {
    if dirs == [] then [] else [Item(first, dirs[0])] + Items(dirs[1..], first + 1)
  }

  /** What is printed for one tag. */
  function Block(e: Entry): seq<Line> {
    [Header(e.tag)] + Items(e.dirs, 1)
  }

  /** The loop over the table's entries, skipping those the filter rejects. */
  function ListEntries(table: Table, tag: string, showAll: bool): seq<Line> {
    if table == [] then []
    else (if showAll || table[0].tag == tag then Block(table[0]) else []) + ListEntries(table[1..], tag, showAll)
  }

  /** The whole output of `list`; a document without the table prints nothing. */
  function ListDirs(doc: Document, tag: string, showAll: bool): (r: seq<Line>)
    ensures doc.directories.None? ==> r == []
  {
    ListEntries(TableOf(doc), tag, showAll)
  }

  function Headers(lines: seq<Line>): seq<string> {
    if lines == [] then []
    else (if lines[0].Header? then [lines[0].tag] else []) + Headers(lines[1..])
  }

  lemma {:induction false} HeadersConcat(a: seq<Line>, b: seq<Line>)
    ensures Headers(a + b) == Headers(a) + Headers(b)
  {
    if a != [] {
      assert (a + b)[0] == a[0] && (a + b)[1..] == a[1..] + b;
      HeadersConcat(a[1..], b);
    } else {
      assert a + b == b;
    }
  }

  lemma {:induction false} HeadersOfItems(dirs: seq<string>, first: nat)
    ensures Headers(Items(dirs, first)) == []
  {
    if dirs != [] {
      HeadersOfItems(dirs[1..], first + 1);
    }
  }

  /** A tag that is not in the table prints nothing when listed on its own. */
  lemma {:induction false} ListAbsentTag(table: Table, tag: string)
    requires tag !in Tags(table)
    ensures ListEntries(table, tag, false) == []
  {
    if table != [] {
      assert Tags(table) == [table[0].tag] + Tags(table[1..]);
      ListAbsentTag(table[1..], tag);
    }
  }

  /**
   * Without the all-tags flag `list` prints the requested tag's header and
   * its directories numbered from 1 in stored order, and nothing when the tag
   * is absent.
   */
  lemma {:induction false} ListOneTag(table: Table, tag: string)
    requires UniqueTags(table)
    ensures ListEntries(table, tag, false) ==
            match Lookup(table, tag)
            case Some(dirs) => [Header(tag)] + Items(dirs, 1)
            case None => []
  {
    if table != [] {
      var rest := table[1..];
      UniqueTagsTail(table);
      if table[0].tag == tag {
        ListAbsentTag(rest, tag);
      } else {
        ListOneTag(rest, tag);
      }
    } else {
      assert Lookup(table, tag) == None;
    }
  }

  /** With the all-tags flag every tag is listed once, in table order, whatever tag was asked for. */
  lemma {:induction false} ListAllTags(table: Table, tag: string)
    ensures Headers(ListEntries(table, tag, true)) == Tags(table)
  {
    if table != [] {
      ListAllTags(table[1..], tag);
      HeadersConcat(Block(table[0]), ListEntries(table[1..], tag, true));
      HeadersConcat([Header(table[0].tag)], Items(table[0].dirs, 1));
      HeadersOfItems(table[0].dirs, 1);
    }
  }

  /** The outputs of listing each of the tags `ts` on its own, one after the other. */
  function ListEach(table: Table, ts: seq<string>): seq<Line> {
    if ts == [] then [] else ListEntries(table, ts[0], false) + ListEach(table, ts[1..])
  }

  /** Listing a tag other than the first entry's does not look at that entry. */
  lemma {:induction false} ListEachSkipsHead(table: Table, ts: seq<string>)
    requires table != [] && table[0].tag !in ts
    ensures ListEach(table, ts) == ListEach(table[1..], ts)
  {
    if ts != [] {
      assert ts[0] in ts;
      ListEachSkipsHead(table, ts[1..]);
    }
  }

  /**
   * With the all-tags flag the output is, for each tag in table order, what
   * listing that tag on its own prints: its header followed by its own
   * directories numbered from 1.
   */
  lemma {:induction false} ListAllIsEachTag(table: Table, tag: string)
    requires UniqueTags(table)
    ensures ListEntries(table, tag, true) == ListEach(table, Tags(table))
  {
    if table != [] {
      var t, rest := table[0].tag, table[1..];
      UniqueTagsTail(table);
      ListAllIsEachTag(rest, tag);
      ListAbsentTag(rest, t);
      ListEachSkipsHead(table, Tags(rest));
      var ts := Tags(table);
      assert ts[0] == t && ts[1..] == Tags(rest);
      assert ListEntries(table, t, false) == Block(table[0]);
    }
  }

  function DirCount(table: Table): nat {
    if table == [] then 0 else |table[0].dirs| + DirCount(table[1..])
  }

  /** With the all-tags flag there is one line per tag and one per stored directory. */
  lemma {:induction false} ListAllLength(table: Table, tag: string)
    ensures |ListEntries(table, tag, true)| == |table| + DirCount(table)
  {
    if table != [] {
      ListAllLength(table[1..], tag);
    }
  }

  /**
   * After `add`, listing the tag shows its header and the updated list,
   * even when the batch added nothing.
   */
  lemma ListAfterAdd(doc: Document, tag: string, paths: seq<Path>, fs: FileSystem)
    requires UniqueTags(TableOf(doc))
    ensures ListDirs(AddToDocument(doc, tag, paths, fs), tag, false) ==
            [Header(tag)] + Items(AddAll(Existing(doc, tag), paths, fs), 1)
  {
    if tag !in Tags(TableOf(doc)) {
      NoDupAppend(Tags(TableOf(doc)), [tag]);
    }
    ListOneTag(AddToDocument(doc, tag, paths, fs).directories.value, tag);
  }
}
