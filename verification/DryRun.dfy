/** The answer of a dry run, and what it says about the run that follows it. */
module DryRun {
  import opened Versions

  const NOOP := 0
  const DOWNLOAD := 1
  const UPDATE := 2
  const DOWNLOAD_AND_UPDATE := 3
  const INSTALL := 4
  const DOWNLOAD_AND_INSTALL := 5
  const UNKNOWN := 6

  /** `n` is what `getRepoLatest` may answer for these names: "" for none, else a newest one. */
  ghost predicate IsNewest(older: Order, names: set<Name>, n: Name) {
    if names == {} then n == "" else n in names && forall m | m in names :: !older(n, m)
  }

  /** The state `Check` reports, from the installed version, the latest release and the newest
      name of the repository ("" where there is none). */
  ghost function Answer(older: Order, installed: Name, latest: Name, index: set<Name>, newest: Name): int {
    (if latest != "" && latest !in index then DOWNLOAD else NOOP)
    + if installed == "" then INSTALL else if older(installed, latest) || older(installed, newest) then UPDATE else NOOP
  }

  /** What `Update` does once the latest release is in the repository: install the newest name
      there, unless there is none or the installed version is already as new. */
  ghost predicate WillInstall(older: Order, installed: Name, target: Name) {
    target != "" && (installed == "" || older(installed, target))
  }

  /** The answer for any repository and any latest release, known or not: it is 1 for a known release
      that is missing, plus 4 if nothing is installed, or plus 2 if something newer than the
      installed version is there: in the repository or as the latest release, where an unknown one
      and an empty repository read as the zero version. */
  lemma AnswerParts(older: Order, installed: Name, latest: Name, index: set<Name>, newest: Name)
    requires WeakOrder(older) && IsNewest(older, index, newest)
    ensures var candidates := index + {latest} + if index == {} then {""} else {};
      Answer(older, installed, latest, index, newest) ==
        (if latest == "" || latest in index then 0 else 1)
        + if installed == "" then 4 else if exists m :: m in candidates && older(installed, m) then 2 else 0
  {
    var candidates := index + {latest} + if index == {} then {""} else {};
    assert newest in candidates && latest in candidates;
    forall m | m in candidates && older(installed, m) ensures older(installed, latest) || older(installed, newest) {
      if m in index {
        assert !older(newest, m);
      }
    }
  }

  /** The dry run predicts the run. Its answer is one of six sums, each read in one way: it has
      the Download part iff the latest release is missing from the repository, the Install part
      iff nothing is installed, and the Install or Update part iff the newest version of the
      repository with the latest release added will be installed. */
  lemma AnswerPredictsRun(older: Order, installed: Name, latest: Name, index: set<Name>, newest: Name, target: Name)
    requires WeakOrder(older) && latest != "" && "" !in index
    requires installed != "" ==> installed in index
    requires IsNewest(older, index, newest) && IsNewest(older, index + {latest}, target)
    ensures var s := Answer(older, installed, latest, index, newest);
      && 0 <= s <= 5
      && (s in {1, 3, 5} <==> latest !in index)
      && (s in {4, 5} <==> installed == "")
      && (s >= 2 <==> WillInstall(older, installed, target))
  {
    assert target in index + {latest};
    if installed != "" {
      assert newest in index;
      assert older(installed, target) <==> older(installed, latest) || older(installed, newest) by {
        assert !older(target, latest) && !older(target, newest);
        if older(installed, target) && target != latest {
          assert !older(newest, target);
        }
      }
    }
  }
}
