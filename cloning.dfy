/**
 * The `clone` command: for each repository name of a GitHub account, either
 * a notice that the working directory already holds an entry of that name, or one
 * `git clone` of `git@github.com:<user>/<name>.git`.  Both revisions share
 * this loop; the newer one (totaliterm) sorts the names first.
 */
module Cloning {
  import opened Sorting

  function RepoUrl(username: string, name: string): string {
    "git@github.com:" + username + "/" + name + ".git"
  }

  /** The shell command run for one repository. */
  function CloneCommand(options: string, url: string): string {
    "git clone " + options + " -- " + url
  }

  /**
   * One turn of the loop: a skipped name, or the printed counter
   * `number/total` and the command run.
   */
  datatype CloneStep =
    | AlreadyPresent(name: string)
    | Clone(number: nat, total: nat, name: string, command: string)

  /**
   * The loop from position `k` on; `present(name)` says whether the working
   * directory already has an entry of that name.  The counter is the position
   * in the whole list, skipped names included.
   */
  function CloneSteps(names: seq<string>, k: nat, username: string, options: string,
                      present: string -> bool): (r: seq<CloneStep>)
    requires k <= |names|
    ensures |r| == |names| - k
    ensures forall j :: 0 <= j < |r| ==>
      r[j] == if present(names[k + j]) then AlreadyPresent(names[k + j])
              else Clone(k + j + 1, |names|, names[k + j], CloneCommand(options, RepoUrl(username, names[k + j])))
    decreases |names| - k
  {
    if k == |names| then []
    else
      var step := if present(names[k]) then AlreadyPresent(names[k])
                  else Clone(k + 1, |names|, names[k], CloneCommand(options, RepoUrl(username, names[k])));
      [step] + CloneSteps(names, k + 1, username, options, present)
  }

  /** The names the steps are about, in order. */
  function NamesOf(steps: seq<CloneStep>): seq<string> {
    if steps == [] then [] else [steps[0].name] + NamesOf(steps[1..])
  }

  /** The names that are not present, in order: a reference for what gets cloned. */
  function Missing(names: seq<string>, present: string -> bool): seq<string> {
    if names == [] then []
    else (if present(names[0]) then [] else [names[0]]) + Missing(names[1..], present)
  }

  /** The names of the steps that run `git clone`. */
  function ClonedNames(steps: seq<CloneStep>): seq<string> {
    if steps == [] then []
    else (if steps[0].Clone? then [steps[0].name] else []) + ClonedNames(steps[1..])
  }

  lemma {:induction false} NamesOfSteps(names: seq<string>, k: nat, username: string, options: string,
                                        present: string -> bool)
    requires k <= |names|
    ensures NamesOf(CloneSteps(names, k, username, options, present)) == names[k..]
    decreases |names| - k
  {
    if k < |names| {
      NamesOfSteps(names, k + 1, username, options, present);
      assert names[k..] == [names[k]] + names[k + 1..];
    }
  }

  /** Exactly the names the working directory holds no entry for are cloned, once each and in order. */
  lemma {:induction false} ClonesExactlyTheMissing(names: seq<string>, k: nat, username: string, options: string,
                                                   present: string -> bool)
    requires k <= |names|
    ensures ClonedNames(CloneSteps(names, k, username, options, present)) == Missing(names[k..], present)
    decreases |names| - k
  {
    if k < |names| {
      ClonesExactlyTheMissing(names, k + 1, username, options, present);
      assert names[k..][0] == names[k] && names[k..][1..] == names[k + 1..];
    }
  }

  /** A URL names one repository: the user name fixes the rest of the URL. */
  lemma RepoUrlInjective(username: string, a: string, b: string)
    requires RepoUrl(username, a) == RepoUrl(username, b)
    ensures a == b
  {
    var prefix := "git@github.com:" + username + "/";
    var u := RepoUrl(username, a);
    assert u == prefix + a + ".git" == prefix + b + ".git";
    assert |a| == |b|;
    assert a == u[|prefix|..|prefix| + |a|];
    assert b == u[|prefix|..|prefix| + |b|];
  }

  /**
   * totaliterm's `clone`: the listed names are sorted before the loop, so
   * the repositories are visited in ascending order of name.
   */
  function ClonePlan(username: string, options: string, listed: seq<string>,
                     present: string -> bool): (r: seq<CloneStep>)
    ensures |r| == |listed|
  {
    CloneSteps(Sort(listed), 0, username, options, present)
  }

  /** The newer revision visits every listed name once, in ascending order. */
  lemma ClonePlanSorted(username: string, options: string, listed: seq<string>, present: string -> bool)
    ensures Sorted(NamesOf(ClonePlan(username, options, listed, present)))
    ensures multiset(NamesOf(ClonePlan(username, options, listed, present))) == multiset(listed)
  {
    NamesOfSteps(Sort(listed), 0, username, options, present);
    assert Sort(listed)[0..] == Sort(listed);
    SortSorted(listed);
  }
}
