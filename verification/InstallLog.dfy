/** What an installation, and an installation with a rollback, leave in the log of the service
    control manager. Every part begins where the part before it ended, so only what happened during
    the run itself counts. */
module InstallLog {
  import opened Versions
  import opened Machine
  import opened Services

  /** The service was removed, then made to exist, then seen running. */
  ghost predicate Reinstalled(before: seq<Event>, after: seq<Event>) {
    exists removed :: before <= removed <= after && Removed(before, removed, SERVICE_NAME) && CreatedAndStarted(removed, after)
  }

  ghost predicate CreatedAndStarted(removed: seq<Event>, after: seq<Event>) {
    exists ensured :: removed <= ensured <= after && Ensured(removed, ensured, SERVICE_NAME) && Started(ensured, after, SERVICE_NAME)
  }

  /** Why an installation fails although no call failed: the service could not be removed, was
      there again before it was created, or was not seen running. */
  ghost predicate InstallBalks(before: seq<Event>, after: seq<Event>) {
    || RemovalBalks(before, after, SERVICE_NAME)
    || exists removed :: before <= removed <= after && Removed(before, removed, SERVICE_NAME) && NotReinstalled(removed, after)
  }

  ghost predicate NotReinstalled(removed: seq<Event>, after: seq<Event>) {
    || CreationBalks(removed, after, SERVICE_NAME)
    || exists ensured :: removed <= ensured <= after && Ensured(removed, ensured, SERVICE_NAME) && StartBalks(ensured, after, SERVICE_NAME)
  }

  /** The service part of an update. With no rollback there was one installation; otherwise the
      first failed and a second followed. An installation succeeds exactly when the service was
      removed, created and seen running in its course. One that had its `source` and met no failing
      call, from `first` on failed calls to `last`, fails only because the service did not play
      along. */
  ghost predicate InstallsLogged(before: seq<Event>, after: seq<Event>, ok: bool, rolledBack: bool,
                                 first: nat, last: nat, source: bool, rollbackSource: bool) {
    if !rolledBack then InstallLogged(before, after, ok, first, last, source)
    else exists between, faults: nat ::
           && before <= between <= after && first <= faults <= last
           && InstallLogged(before, between, false, first, faults, source)
           && InstallLogged(between, after, ok, faults, last, rollbackSource)
  }

  ghost predicate InstallLogged(before: seq<Event>, after: seq<Event>, ok: bool, first: nat, last: nat, source: bool) {
    ok == Reinstalled(before, after) && (!ok && first == last && source ==> InstallBalks(before, after))
  }

  lemma RemovedNotRunning(before: seq<Event>, removed: seq<Event>)
    requires Removed(before, removed, SERVICE_NAME)
    ensures NotSeenRunning(before, removed, SERVICE_NAME)
  {
  }

  lemma NotRunningTwice(a: seq<Event>, b: seq<Event>, c: seq<Event>)
    requires NotSeenRunning(a, b, SERVICE_NAME) && NotSeenRunning(b, c, SERVICE_NAME)
    ensures NotSeenRunning(a, c, SERVICE_NAME)
  {
  }

  lemma CreatedSeenRunning(removed: seq<Event>, after: seq<Event>)
    requires CreatedAndStarted(removed, after)
    ensures States(removed, SERVICE_NAME) < States(after, SERVICE_NAME)
    ensures States(after, SERVICE_NAME)[|States(after, SERVICE_NAME)| - 1] == Running
    ensures Commands(removed) <= Commands(after)
  {
    var ensured :| Ensured(removed, ensured, SERVICE_NAME) && Started(ensured, after, SERVICE_NAME);
  }

  /** A run in which the service was not seen running cannot pass for an installation. */
  lemma NotRunningNotReinstalled(before: seq<Event>, after: seq<Event>)
    requires NotSeenRunning(before, after, SERVICE_NAME)
    ensures !Reinstalled(before, after)
  {
    forall removed | Removed(before, removed, SERVICE_NAME) ensures !CreatedAndStarted(removed, after) {
      if CreatedAndStarted(removed, after) {
        CreatedSeenRunning(removed, after);
      }
    }
  }

  lemma RemovedNotReinstalled(before: seq<Event>, removed: seq<Event>)
    requires Removed(before, removed, SERVICE_NAME)
    ensures !Reinstalled(before, removed)
  {
    NotRunningNotReinstalled(before, removed);
  }

  /** After a removal, the service being created and seen running decides. */
  lemma InstalledOrNot(before: seq<Event>, removed: seq<Event>, after: seq<Event>, ok: bool)
    requires before <= removed <= after && Removed(before, removed, SERVICE_NAME)
    requires if ok then CreatedAndStarted(removed, after) else NotSeenRunning(removed, after, SERVICE_NAME)
    ensures ok == Reinstalled(before, after)
  {
    if !ok {
      RemovedNotRunning(before, removed);
      NotRunningTwice(before, removed, after);
      NotRunningNotReinstalled(before, after);
    }
  }

  lemma FoundAndRemoved(before: seq<Event>, removed: seq<Event>, after: seq<Event>)
    requires FirstListing(before, after, SERVICE_NAME, true) && removed <= after
    requires Removed(before, removed, SERVICE_NAME)
    ensures |Commands(before)| < |Commands(removed)| <= |Commands(before)| + 2
    ensures Commands(removed)[|Commands(removed)| - 1] == DeleteSent(SERVICE_NAME, true)
  {
    assert Looked(before, removed);
    assert removed[|before|] == after[|before|];
  }

  lemma DeletionAmongCommands(before: seq<Event>, removed: seq<Event>, after: seq<Event>)
    requires FirstListing(before, after, SERVICE_NAME, true) && removed <= after
    requires Removed(before, removed, SERVICE_NAME) && CreatedAndStarted(removed, after)
    ensures |Commands(after)| >= |Commands(removed)| > |Commands(before)|
    ensures Commands(after)[|Commands(removed)| - 1] == DeleteSent(SERVICE_NAME, true)
  {
    FoundAndRemoved(before, removed, after);
    CreatedSeenRunning(removed, after);
  }

  /** Nor can a run in which the service was there and was not deleted. */
  lemma NotDeletedNotReinstalled(before: seq<Event>, after: seq<Event>)
    requires NotDeleted(before, after, SERVICE_NAME)
    ensures !Reinstalled(before, after)
  {
    forall removed | removed <= after && Removed(before, removed, SERVICE_NAME)
      ensures !CreatedAndStarted(removed, after)
    {
      if CreatedAndStarted(removed, after) {
        DeletionAmongCommands(before, removed, after);
      }
    }
  }

  lemma {:induction false} StateIn(before: seq<Event>, after: seq<Event>, name: Name) returns (i: nat)
    requires before <= after && |States(after, name)| > |States(before, name)|
    ensures |before| <= i < |after| && after[i] == Queried(name, States(after, name)[|States(after, name)| - 1])
  {
    var last := |after| - 1;
    assert before <= after[..last] by {
      if before == after { assert false; }
    }
    if after[last].Queried? && after[last].name == name {
      i := last;
    } else {
      i := StateIn(before, after[..last], name);
    }
  }

  lemma {:induction false} CommandIn(before: seq<Event>, after: seq<Event>, k: nat) returns (i: nat)
    requires before <= after && |Commands(before)| <= k < |Commands(after)|
    ensures |before| <= i < |after| && after[i] == Commands(after)[k]
  {
    var last := |after| - 1;
    assert before <= after[..last] by {
      if before == after { assert false; }
    }
    if k == |Commands(after)| - 1 && !after[last].Listed? && !after[last].Queried? && !after[last].TimedOut? {
      i := last;
    } else {
      i := CommandIn(before, after[..last], k);
    }
  }

  /** An installation that succeeds saw the service running in its own course, and if the service
      was there when it began, it deleted it before that. */
  lemma ReinstalledAfresh(before: seq<Event>, after: seq<Event>) returns (deleted: nat, running: nat)
    requires Reinstalled(before, after)
    ensures |before| < running < |after| && after[running] == Queried(SERVICE_NAME, Running)
    ensures FirstListing(before, after, SERVICE_NAME, true) ==>
              |before| <= deleted < running && after[deleted] == DeleteSent(SERVICE_NAME, true)
  {
    var removed :| before <= removed <= after && Removed(before, removed, SERVICE_NAME) && CreatedAndStarted(removed, after);
    running := RunningAfter(removed, after);
    deleted := 0;
    if FirstListing(before, after, SERVICE_NAME, true) {
      deleted := DeletedBefore(before, removed, after);
    }
  }

  lemma RunningAfter(removed: seq<Event>, after: seq<Event>) returns (running: nat)
    requires removed <= after && CreatedAndStarted(removed, after)
    ensures |removed| <= running < |after| && after[running] == Queried(SERVICE_NAME, Running)
  {
    CreatedSeenRunning(removed, after);
    running := StateIn(removed, after, SERVICE_NAME);
  }

  lemma DeletedBefore(before: seq<Event>, removed: seq<Event>, after: seq<Event>) returns (deleted: nat)
    requires before <= removed <= after && FirstListing(before, after, SERVICE_NAME, true)
    requires Removed(before, removed, SERVICE_NAME)
    ensures |before| <= deleted < |removed| && after[deleted] == DeleteSent(SERVICE_NAME, true)
  {
    FoundAndRemoved(before, removed, after);
    deleted := CommandIn(before, removed, |Commands(removed)| - 1);
  }
}
