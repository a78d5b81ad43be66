/**
 * The earlier revision, multigit.  Its `run` scans the working directory for
 * `.git` entries one level down instead of reading a registry; its `clone` keeps the
 * order of the account listing instead of sorting it.
 */
module Multigit {
  import opened Sorting
  import Cloning

  /**
   * One turn of `run_command`: the git root's name is printed as a header and
   * the command string is given to the shell with that root as working
   * directory.  The shell reports a command it cannot find, and the exit
   * status is not checked, so no turn stops the loop.
   */
  datatype ScanVisit = ScanVisit(root: string, command: string)

  /**
   * `run_command`.  `matches` names the children of the working directory
   * that have a `.git` entry, in whatever order the glob yields them.  The
   * `.git` paths differ only in that child's name, so sorting them sorts the
   * names.  Names are compared by code point, as pathlib compares paths on
   * POSIX.
   */
  function RunCommandPlan(matches: seq<string>, command: string): (r: seq<ScanVisit>)
    ensures |r| == |matches|
  {
    var roots := Sort(matches);
    seq(|roots|, k requires 0 <= k < |roots| => ScanVisit(roots[k], command))
  }

  function RootsOf(visits: seq<ScanVisit>): seq<string> {
    seq(|visits|, k requires 0 <= k < |visits| => visits[k].root)
  }

  /**
   * The git roots are visited in strictly ascending order, each match exactly
   * once, all with the same command.
   */
  lemma ScanVisitsEachRootOnceInOrder(matches: seq<string>, command: string)
    requires NoDup(matches)
    ensures var roots := RootsOf(RunCommandPlan(matches, command));
            && multiset(roots) == multiset(matches)
            && forall i, j :: 0 <= i < j < |roots| ==> Le(roots[i], roots[j]) && roots[i] != roots[j]
    ensures forall v :: v in RunCommandPlan(matches, command) ==> v.command == command
  {
    assert RootsOf(RunCommandPlan(matches, command)) == Sort(matches);
    SortStrictlyAscending(matches);
  }

  /** multigit's `clone`: the same loop over the names in the order they were listed. */
  function ClonePlan(username: string, options: string, listed: seq<string>,
                     present: string -> bool): (r: seq<Cloning.CloneStep>)
    ensures |r| == |listed|
  {
    Cloning.CloneSteps(listed, 0, username, options, present)
  }

  /**
   * The earlier revision pairs each listed name with its URL in listing order
   * and clones exactly the names the working directory holds no entry for.
   */
  lemma CloneKeepsListingOrder(username: string, options: string, listed: seq<string>, present: string -> bool)
    ensures Cloning.NamesOf(ClonePlan(username, options, listed, present)) == listed
    ensures Cloning.ClonedNames(ClonePlan(username, options, listed, present)) == Cloning.Missing(listed, present)
  {
    Cloning.NamesOfSteps(listed, 0, username, options, present);
    Cloning.ClonesExactlyTheMissing(listed, 0, username, options, present);
    assert listed[0..] == listed;
  }

  /** The two revisions clone in different orders when the listing is not sorted. */
  lemma RevisionsDisagreeOnUnsortedListing(username: string, options: string, present: string -> bool)
    ensures Cloning.NamesOf(Cloning.ClonePlan(username, options, ["b", "a"], present)) == ["a", "b"]
    ensures Cloning.NamesOf(ClonePlan(username, options, ["b", "a"], present)) == ["b", "a"]
  {
    assert Le("a", "b");
    assert !Le("b", "a");
    assert Sort(["b", "a"]) == ["a", "b"] by {
      assert ["b", "a"][1..] == ["a"];
      assert Sort(["a"]) == ["a"];
    }
    Cloning.NamesOfSteps(["a", "b"], 0, username, options, present);
    CloneKeepsListingOrder(username, options, ["b", "a"], present);
  }
}
