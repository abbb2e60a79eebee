/** The service manager and the order in which it may send commands to a service. */
module Services {
  import opened Versions
  import opened Machine

  /** The one service the updater manages. */
  const SERVICE_NAME := "yc-guest-agent"

  /** The state last seen of a service, unless a command was sent to it since. */
  function LastSeen(log: seq<Event>, name: Name): Option<ServiceState> {
    if log == [] then None
    else
      var before := log[..|log| - 1];
      match log[|log| - 1]
      case Listed(_) => LastSeen(before, name)
      case Queried(n, state) => if n == name then Some(state) else LastSeen(before, name)
      case StartSent(n) => if n == name then None else LastSeen(before, name)
      case StopSent(n) => if n == name then None else LastSeen(before, name)
      case CreateSent(n, _) => if n == name then None else LastSeen(before, name)
      case DeleteSent(n, _) => if n == name then None else LastSeen(before, name)
      case TimedOut => LastSeen(before, name)
  }

  /** Whether a service was there when last listed, created or deleted. */
  function LastPresent(log: seq<Event>, name: Name): Option<bool> {
    if log == [] then None
    else
      var before := log[..|log| - 1];
      match log[|log| - 1]
      case Listed(names) => Some(name in names)
      case CreateSent(n, done) => if n != name then LastPresent(before, name) else if done then Some(true) else None
      case DeleteSent(n, done) => if n != name then LastPresent(before, name) else if done then Some(false) else None
      case _ => LastPresent(before, name)
  }

  /** A command is justified by what was observed before it. */
  predicate Allowed(before: seq<Event>, e: Event) {
    match e
    case StartSent(n) => LastPresent(before, n) == Some(true) && LastSeen(before, n).Some? && LastSeen(before, n) != Some(Running)
    case StopSent(n) => LastPresent(before, n) == Some(true) && LastSeen(before, n).Some? && LastSeen(before, n) != Some(Stopped)
    case CreateSent(n, _) => LastPresent(before, n) == Some(false)
    case DeleteSent(n, _) => LastPresent(before, n) == Some(true) && LastSeen(before, n) == Some(Stopped)
    case _ => true
  }

  /** Every command in the log was justified when it was sent. */
  predicate Careful(log: seq<Event>) {
    log == [] || (Careful(log[..|log| - 1]) && Allowed(log[..|log| - 1], log[|log| - 1]))
  }

  /** Read at any position of a log: the command there was justified by what came before it. */
  lemma {:induction false} CarefulAt(log: seq<Event>, i: nat)
    requires Careful(log) && i < |log|
    ensures Careful(log[..i]) && Allowed(log[..i], log[i])
  {
    if i < |log| - 1 {
      var before := log[..|log| - 1];
      CarefulAt(before, i);
      assert before[..i] == log[..i];
    }
  }

  lemma {:induction false} SeenAt(log: seq<Event>, name: Name, state: ServiceState) returns (i: nat)
    requires LastSeen(log, name) == Some(state)
    ensures i < |log| && log[i] == Queried(name, state)
    ensures forall j | i < j < |log| :: log[j] != StartSent(name) && log[j] != StopSent(name)
  {
    var last := |log| - 1;
    if log[last] == Queried(name, state) {
      i := last;
    } else {
      i := SeenAt(log[..last], name, state);
    }
  }

  /** In any run of commands, the service is only started after it was seen in another state than
      running, and only stopped after it was seen in another state than stopped, with no start or
      stop sent since. */
  lemma CommandedOnlyWhenNeeded(log: seq<Event>, i: nat) returns (seen: nat)
    requires Careful(log) && i < |log| && (log[i] == StartSent(SERVICE_NAME) || log[i] == StopSent(SERVICE_NAME))
    ensures seen < i && log[seen].Queried? && log[seen].name == SERVICE_NAME
    ensures log[seen].state != if log[i].StartSent? then Running else Stopped
    ensures forall j | seen < j < i :: log[j] != StartSent(SERVICE_NAME) && log[j] != StopSent(SERVICE_NAME)
  {
    CarefulAt(log, i);
    seen := SeenAt(log[..i], SERVICE_NAME, LastSeen(log[..i], SERVICE_NAME).value);
    assert forall j | seen < j < i :: log[..i][j] == log[j];
  }

  /** In any run of commands, the service is only deleted after it was seen stopped, with no
      start sent since. */
  lemma DeletedOnlyWhenStopped(log: seq<Event>, i: nat, done: bool) returns (seen: nat)
    requires Careful(log) && i < |log| && log[i] == DeleteSent(SERVICE_NAME, done)
    ensures seen < i && log[seen] == Queried(SERVICE_NAME, Stopped)
    ensures forall j | seen < j < i :: log[j] != StartSent(SERVICE_NAME)
  {
    CarefulAt(log, i);
    seen := SeenAt(log[..i], SERVICE_NAME, Stopped);
    assert forall j | seen < j < i :: log[..i][j] == log[j];
  }

  /** The event tells whether a service is there. */
  predicate Tells(e: Event, name: Name) {
    e.Listed? || ((e.CreateSent? || e.DeleteSent?) && e.name == name)
  }

  lemma {:induction false} PresentAt(log: seq<Event>, name: Name, present: bool) returns (i: nat)
    requires LastPresent(log, name) == Some(present)
    ensures i < |log| && forall j | i < j < |log| :: !Tells(log[j], name)
    ensures match log[i]
            case Listed(names) => present == (name in names)
            case CreateSent(n, done) => n == name && done && present
            case DeleteSent(n, done) => n == name && done && !present
            case _ => false
  {
    var last := |log| - 1;
    if Tells(log[last], name) {
      i := last;
    } else {
      i := PresentAt(log[..last], name, present);
    }
  }

  /** In any run of commands, the service is only created after a listing without it or after its
      own deletion, with no other creation, deletion or listing in between. */
  lemma CreatedOnlyWhenAbsent(log: seq<Event>, i: nat, done: bool) returns (seen: nat)
    requires Careful(log) && i < |log| && log[i] == CreateSent(SERVICE_NAME, done)
    ensures seen < i && forall j | seen < j < i :: !Tells(log[j], SERVICE_NAME)
    ensures log[seen] == DeleteSent(SERVICE_NAME, true) || (log[seen].Listed? && SERVICE_NAME !in log[seen].names)
  {
    CarefulAt(log, i);
    seen := PresentAt(log[..i], SERVICE_NAME, false);
    assert forall j | seen < j < i :: log[..i][j] == log[j];
  }

  /** The commands of a log, without what was only looked at. */
  function Commands(log: seq<Event>): seq<Event> {
    if log == [] then []
    else
      var last := log[|log| - 1];
      Commands(log[..|log| - 1]) + if last.Listed? || last.Queried? || last.TimedOut? then [] else [last]
  }

  /** The states in which a service was seen, in order. */
  function States(log: seq<Event>, name: Name): seq<ServiceState> {
    if log == [] then []
    else
      var last := log[|log| - 1];
      States(log[..|log| - 1], name) + if last.Queried? && last.name == name then [last.state] else []
  }

  /** Only looked at: no command was sent. */
  ghost predicate OnlyLooked(before: seq<Event>, after: seq<Event>) {
    before <= after && Commands(after) == Commands(before) && (Careful(before) <==> Careful(after))
  }

  /** The first thing done was to list the services. */
  ghost predicate Looked(before: seq<Event>, after: seq<Event>) {
    before < after && after[|before|].Listed?
  }

  /** The first thing done was to list the services, and the listing showed whether this one is there. */
  ghost predicate FirstListing(before: seq<Event>, after: seq<Event>, name: Name, present: bool) {
    Looked(before, after) && (name in after[|before|].names) == present
  }

  /** The service was there and was seen running, either at once or after one start command that
      followed a sighting of another state. */
  ghost predicate Started(before: seq<Event>, after: seq<Event>, name: Name) {
    && FirstListing(before, after, name, true)
    && LastPresent(after, name) == Some(true) && LastSeen(after, name) == Some(Running)
    && if Commands(after) == Commands(before) then States(after, name) == States(before, name) + [Running]
       else && Commands(after) == Commands(before) + [StartSent(name)]
            && exists s :: s != Running && States(after, name) == States(before, name) + [s, Running]
  }

  /** The same for stopping; the command names the guest agent's service. */
  ghost predicate HasStopped(before: seq<Event>, after: seq<Event>, name: Name) {
    && FirstListing(before, after, name, true)
    && LastPresent(after, name) == Some(true) && LastSeen(after, name) == Some(Stopped)
    && if Commands(after) == Commands(before) then States(after, name) == States(before, name) + [Stopped]
       else && Commands(after) == Commands(before) + [StopSent(SERVICE_NAME)]
            && exists s :: s != Stopped && States(after, name) == States(before, name) + [s, Stopped]
  }

  /** The service is gone: the one listing made did not show it; or it was there, was seen
      stopped, after at most one stop command, and then deleted. */
  ghost predicate Removed(before: seq<Event>, after: seq<Event>, name: Name) {
    && LastPresent(after, name) == Some(false)
    && if FirstListing(before, after, name, false) then
         |after| == |before| + 1 && Commands(after) == Commands(before) && States(after, name) == States(before, name)
       else
         && FirstListing(before, after, name, true)
         && States(before, name) < States(after, name)
         && States(after, name)[|States(after, name)| - 1] == Stopped
         && ( || Commands(after) == Commands(before) + [DeleteSent(name, true)]
              || Commands(after) == Commands(before) + [StopSent(name), DeleteSent(name, true)])
  }

  /** The service is there: the one listing made showed it; or it was absent and was created. */
  ghost predicate Ensured(before: seq<Event>, after: seq<Event>, name: Name) {
    && LastPresent(after, name) == Some(true) && States(after, name) == States(before, name)
    && if FirstListing(before, after, name, true) then |after| == |before| + 1 && Commands(after) == Commands(before)
       else FirstListing(before, after, name, false) && Commands(after) == Commands(before) + [CreateSent(name, true)]
  }

  /** How a wait for a state ends without it: the time was up, the service was no longer listed, or
      it was seen in another state. */
  ghost predicate Missed(log: seq<Event>, name: Name, state: ServiceState) {
    && log != []
    && match log[|log| - 1]
       case TimedOut => true
       case Listed(names) => name !in names
       case Queried(n, s) => n == name && s != state
       case _ => false
  }

  /** Why a start fails although no call failed: the service is not there, or it was not seen
      running after the start command. */
  ghost predicate StartBalks(before: seq<Event>, after: seq<Event>, name: Name) {
    && Looked(before, after)
    && ( || (Commands(after) == Commands(before) && LastPresent(after, name) == Some(false))
         || (Commands(after) == Commands(before) + [StartSent(name)] && LastSeen(after, name) != Some(Running)
             && Missed(after, name, Running)))
  }

  ghost predicate StopBalks(before: seq<Event>, after: seq<Event>, name: Name) {
    && Looked(before, after)
    && ( || (Commands(after) == Commands(before) && LastPresent(after, name) == Some(false))
         || (Commands(after) == Commands(before) + [StopSent(SERVICE_NAME)] && LastSeen(after, name) != Some(Stopped)
             && Missed(after, name, Stopped)))
  }

  /** Why a removal fails although no call failed: the service would not stop, or it was suddenly
      not there. */
  ghost predicate RemovalBalks(before: seq<Event>, after: seq<Event>, name: Name) {
    || StopBalks(before, after, name)
    || (Looked(before, after) && Commands(after) == Commands(before) + [StopSent(name)] && LastPresent(after, name) == Some(false))
  }

  /** The service, just listed as absent, was there when it was to be created. */
  ghost predicate CreationBalks(before: seq<Event>, after: seq<Event>, name: Name) {
    && FirstListing(before, after, name, false) && Commands(after) == Commands(before)
    && States(after, name) == States(before, name) && LastPresent(after, name) == Some(true)
  }

  /** One listing that shows the service, and one look at its state. */
  ghost predicate LooksUp(before: seq<Event>, after: seq<Event>, name: Name, state: ServiceState) {
    FirstListing(before, after, name, true) && |after| == |before| + 2 && after[|before| + 1] == Queried(name, state)
  }

  /** The service is not known to run: no state of it was seen, or the last one was another. */
  ghost predicate NotSeenRunning(before: seq<Event>, after: seq<Event>, name: Name) {
    States(after, name) == States(before, name)
    || (States(before, name) < States(after, name) && States(after, name)[|States(after, name)| - 1] != Running)
  }

  /** The service was there and no deletion went through. */
  ghost predicate NotDeleted(before: seq<Event>, after: seq<Event>, name: Name) {
    && FirstListing(before, after, name, true)
    && ( || Commands(after) == Commands(before)
         || Commands(after) == Commands(before) + [StopSent(name)]
         || Commands(after) == Commands(before) + [DeleteSent(name, false)]
         || Commands(after) == Commands(before) + [StopSent(name), DeleteSent(name, false)])
  }

  /** When a stop command for the guest agent's service is justified after looking up another
      service twice: the second listing showed the guest agent's service too, and the state last
      seen of it, before that, is not Stopped. */
  ghost predicate StopCovered(before: seq<Event>, after: seq<Event>) {
    && |after| > |before| + 1 && after[|before| + 1].Listed? && SERVICE_NAME in after[|before| + 1].names
    && LastSeen(before, SERVICE_NAME).Some? && LastSeen(before, SERVICE_NAME) != Some(Stopped)
  }

  lemma LookedUpOther(before: seq<Event>, after: seq<Event>, name: Name, state: ServiceState, other: Name)
    requires LooksUp(before, after, name, state) && other != name
    ensures LastSeen(after, other) == LastSeen(before, other)
    ensures LastPresent(after, other) == Some(other in after[|before|].names)
  {
    var listed := after[..|before| + 1];
    assert after[..|after| - 1] == listed && listed[..|listed| - 1] == before;
  }

  lemma StopAllowed(before: seq<Event>, listed: seq<Event>, after: seq<Event>, name: Name)
    requires FirstListing(before, listed, name, true) && |listed| == |before| + 1
    requires exists s :: LooksUp(listed, after, name, s) && s != Stopped && LastSeen(after, name) == Some(s)
    requires LastPresent(after, name) == Some(true)
    ensures Allowed(after, StopSent(SERVICE_NAME)) <==> name == SERVICE_NAME || StopCovered(before, after)
  {
    if name != SERVICE_NAME {
      var s :| LooksUp(listed, after, name, s);
      LookedUpOther(listed, after, name, s, SERVICE_NAME);
      assert listed[..|listed| - 1] == before;
    }
  }

  lemma OneMoreEvent(log: seq<Event>, e: Event, name: Name)
    ensures Commands(log + [e]) == Commands(log) + if e.Listed? || e.Queried? || e.TimedOut? then [] else [e]
    ensures Careful(log + [e]) <==> Careful(log) && Allowed(log, e)
    ensures e.Listed? ==> LastSeen(log + [e], name) == LastSeen(log, name)
    ensures e.Queried? ==> LastSeen(log + [e], name) == if e.name == name then Some(e.state) else LastSeen(log, name)
    ensures e.TimedOut? || (e.StopSent? && e.name != name) ==> LastSeen(log + [e], name) == LastSeen(log, name)
  {
    assert (log + [e])[..|log|] == log;
  }

  /** Stopping another service can break the rule: from an empty log, which is careful, a stop of
      another running service sends a stop to a service never looked at; here it then times out. */
  lemma StopElsewhereIsCareless(other: Name)
    requires other != SERVICE_NAME
    ensures var looks := [] + [Listed([other])] + [Listed([other])] + [Queried(other, Running)];
      var log := looks + [StopSent(SERVICE_NAME)] + [TimedOut];
      Careful(looks) && StopBalks([], log, other) && !StopCovered([], log) && !Careful(log)
  {
    var one := [] + [Listed([other])];
    var two := one + [Listed([other])];
    var looks := two + [Queried(other, Running)];
    forall name ensures LastSeen(looks, name) == if name == other then Some(Running) else None {
      OneMoreEvent([], Listed([other]), name);
      OneMoreEvent(one, Listed([other]), name);
      OneMoreEvent(two, Queried(other, Running), name);
    }
    OneMoreEvent([], Listed([other]), other);
    OneMoreEvent(one, Listed([other]), other);
    OneMoreEvent(two, Queried(other, Running), other);
    OneMoreEvent(looks, StopSent(SERVICE_NAME), other);
    OneMoreEvent(looks + [StopSent(SERVICE_NAME)], TimedOut, other);
  }

  class Manager {
    const host: Host

    constructor (host: Host)
      ensures this.host == host
    {
      this.host := host;
    }

    method IsExist(name: Name) returns (ok: bool, exist: bool)
      modifies host`log, host`faults
      ensures host.faults == old(host.faults) + if ok then 0 else 1
      ensures OnlyLooked(old(host.log), host.log)
      ensures LastSeen(host.log, name) == LastSeen(old(host.log), name)
      ensures States(host.log, name) == States(old(host.log), name)
      ensures ok ==> |host.log| == |old(host.log)| + 1 && FirstListing(old(host.log), host.log, name, exist)
      ensures ok ==> LastPresent(host.log, name) == Some(exist)
      ensures !ok ==> host.log == old(host.log)
    {
      var services;
      ok, services := host.ListServices();
      exist := false;
      if !ok { return; }
      for i := 0 to |services|
        invariant !exist && name !in services[..i]
      {
        if services[i] == name {
          exist := true;
          return;
        }
      }
    }

    method GetStatus(name: Name) returns (ok: bool, state: ServiceState)
      modifies host`log, host`faults
      ensures host.faults >= old(host.faults)
      ensures OnlyLooked(old(host.log), host.log)
      ensures ok ==> LooksUp(old(host.log), host.log, name, state)
      ensures ok ==> LastPresent(host.log, name) == Some(true) && LastSeen(host.log, name) == Some(state)
      ensures ok ==> States(host.log, name) == States(old(host.log), name) + [state]
      ensures !ok ==> LastSeen(host.log, name) == LastSeen(old(host.log), name)
      ensures !ok ==> States(host.log, name) == States(old(host.log), name)
      ensures !ok && host.faults == old(host.faults) ==>
                && FirstListing(old(host.log), host.log, name, false) && |host.log| == |old(host.log)| + 1
                && LastPresent(host.log, name) == Some(false)
    {
      var exist;
      state := Unknown;
      ok, exist := IsExist(name);
      if !ok || !exist { return false, Unknown; }
      ok := host.Attempt();  // open the service
      if !ok { return; }
      ok, state := host.Query(name);
    }

    method IsStopped(name: Name) returns (ok: bool, stopped: bool)
      modifies host`log, host`faults
      ensures host.faults >= old(host.faults)
      ensures OnlyLooked(old(host.log), host.log)
      ensures ok ==> exists s :: && LooksUp(old(host.log), host.log, name, s) && stopped == (s == Stopped)
                                 && LastPresent(host.log, name) == Some(true) && LastSeen(host.log, name) == Some(s)
                                 && States(host.log, name) == States(old(host.log), name) + [s]
      ensures !ok ==> LastSeen(host.log, name) == LastSeen(old(host.log), name)
      ensures !ok ==> States(host.log, name) == States(old(host.log), name)
      ensures !ok && host.faults == old(host.faults) ==>
                && FirstListing(old(host.log), host.log, name, false) && |host.log| == |old(host.log)| + 1
                && LastPresent(host.log, name) == Some(false)
    {
      var state;
      ok, state := GetStatus(name);
      stopped := state == Stopped;
    }

    method IsRunning(name: Name) returns (ok: bool, running: bool)
      modifies host`log, host`faults
      ensures host.faults >= old(host.faults)
      ensures OnlyLooked(old(host.log), host.log)
      ensures ok ==> exists s :: && LooksUp(old(host.log), host.log, name, s) && running == (s == Running)
                                 && LastPresent(host.log, name) == Some(true) && LastSeen(host.log, name) == Some(s)
                                 && States(host.log, name) == States(old(host.log), name) + [s]
      ensures !ok ==> LastSeen(host.log, name) == LastSeen(old(host.log), name)
      ensures !ok ==> States(host.log, name) == States(old(host.log), name)
      ensures !ok && host.faults == old(host.faults) ==>
                && FirstListing(old(host.log), host.log, name, false) && |host.log| == |old(host.log)| + 1
                && LastPresent(host.log, name) == Some(false)
    {
      var state;
      ok, state := GetStatus(name);
      running := state == Running;
    }

    /** Send a start or a stop command, which makes what was seen of its service stale. */
    method Send(command: Event, name: Name) returns (ok: bool)
      requires command.StartSent? || command.StopSent?
      modifies host`log, host`faults
      ensures host.faults == old(host.faults) + if ok then 0 else 1
      ensures old(host.log) <= host.log && Commands(host.log) == Commands(old(host.log)) + [command]
      ensures Careful(host.log) <==> Careful(old(host.log)) && Allowed(old(host.log), command)
      ensures States(host.log, name) == States(old(host.log), name)
      ensures LastSeen(host.log, name) == if command.name == name then None else LastSeen(old(host.log), name)
      ensures LastPresent(host.log, name) == LastPresent(old(host.log), name)
    {
      if command.StartSent? {
        ok := host.SendStart(command.name);
      } else {
        ok := host.SendStop(command.name);
      }
    }

    /** No error means that the service was seen running. After sending the start command the
        state is looked at once, or not at all when the timeout wins the `select`. */
    method Start(name: Name) returns (ok: bool)
      modifies host`log, host`faults
      ensures host.faults >= old(host.faults)
      ensures Careful(old(host.log)) ==> Careful(host.log)
      ensures old(host.log) <= host.log
      ensures ok ==> Started(old(host.log), host.log, name)
      ensures !ok && host.faults == old(host.faults) ==> StartBalks(old(host.log), host.log, name)
      ensures !ok ==> NotSeenRunning(old(host.log), host.log, name)
    {
      var exist, running;
      ok, exist := IsExist(name);
      if !ok || !exist { return false; }
      ok, running := IsRunning(name);
      if !ok || running { return; }
      ghost var seen := States(host.log, name);
      ok := host.Attempt();  // open the service
      if !ok { return; }
      ok := Send(StartSent(name), name);
      if !ok { return; }
      ok := AwaitRunning(name);
      assert ok ==> States(host.log, name) == States(old(host.log), name) + [seen[|seen| - 1], Running];
    }

    /** The `select` after the start command: one look at the state, or none when the timeout wins. */
    method AwaitRunning(name: Name) returns (ok: bool)
      modifies host`log, host`faults
      ensures host.faults >= old(host.faults)
      ensures OnlyLooked(old(host.log), host.log)
      ensures ok ==> LastPresent(host.log, name) == Some(true) && LastSeen(host.log, name) == Some(Running)
      ensures ok ==> States(host.log, name) == States(old(host.log), name) + [Running]
      ensures !ok ==> LastSeen(host.log, name) == LastSeen(old(host.log), name) || LastSeen(host.log, name) != Some(Running)
      ensures !ok && host.faults == old(host.faults) ==> Missed(host.log, name, Running)
      ensures !ok ==> NotSeenRunning(old(host.log), host.log, name)
    {
      var ticked := host.AwaitTick();
      if !ticked { return false; }
      var running;
      ok, running := IsRunning(name);
      ok := ok && running;
    }

    /** No error means that the service was seen stopped. Whatever name is given, the stop command
        goes to the guest agent's service. For another name the log stays careful exactly when no
        command was needed, or the guest agent's service happened to be known not to be stopped. */
    method Stop(name: Name) returns (ok: bool)
      modifies host`log, host`faults
      ensures host.faults >= old(host.faults)
      ensures Careful(old(host.log)) ==>
                (Careful(host.log) <==> || name == SERVICE_NAME || Commands(host.log) == Commands(old(host.log))
                                        || StopCovered(old(host.log), host.log))
      ensures old(host.log) <= host.log
      ensures ok ==> HasStopped(old(host.log), host.log, name)
      ensures || Commands(host.log) == Commands(old(host.log))
              || Commands(host.log) == Commands(old(host.log)) + [StopSent("yc-guest-agent")]
      ensures !ok && host.faults == old(host.faults) ==> StopBalks(old(host.log), host.log, name)
    {
      var exist, stopped;
      ok, exist := IsExist(name);
      if !ok || !exist { return false; }
      ghost var listed := host.log;
      ok, stopped := IsStopped(name);
      if !ok || stopped { return; }
      ghost var seen := States(host.log, name);
      StopAllowed(old(host.log), listed, host.log, name);
      ok := host.Attempt();  // open the service
      if !ok { return; }
      ok := Send(StopSent(SERVICE_NAME), name);
      assert Commands(host.log) != Commands(old(host.log));
      if !ok { return; }
      ok := AwaitStopped(name);
      assert ok ==> States(host.log, name) == States(old(host.log), name) + [seen[|seen| - 1], Stopped];
    }

    /** The `select` after the stop command: one look at the state, or none when the timeout wins. */
    method AwaitStopped(name: Name) returns (ok: bool)
      modifies host`log, host`faults
      ensures host.faults >= old(host.faults)
      ensures OnlyLooked(old(host.log), host.log)
      ensures ok ==> LastPresent(host.log, name) == Some(true) && LastSeen(host.log, name) == Some(Stopped)
      ensures ok ==> States(host.log, name) == States(old(host.log), name) + [Stopped]
      ensures !ok ==> LastSeen(host.log, name) == LastSeen(old(host.log), name) || LastSeen(host.log, name) != Some(Stopped)
      ensures !ok && host.faults == old(host.faults) ==> Missed(host.log, name, Stopped)
    {
      var ticked := host.AwaitTick();
      if !ticked { return false; }
      var stopped;
      ok, stopped := IsStopped(name);
      ok := ok && stopped;
    }

    method Create(name: Name) returns (ok: bool)
      modifies host`log, host`faults
      ensures host.faults >= old(host.faults)
      ensures Careful(old(host.log)) ==> Careful(host.log)
      ensures States(host.log, name) == States(old(host.log), name)
      ensures ok ==> LastPresent(host.log, name) == Some(true)
      ensures ok ==> Commands(host.log) == Commands(old(host.log)) + [CreateSent(name, true)]
      ensures ok ==> FirstListing(old(host.log), host.log, name, false)
      ensures old(host.log) <= host.log
      ensures !ok && host.faults == old(host.faults) ==>
                FirstListing(old(host.log), host.log, name, true) && LastPresent(host.log, name) == Some(true)
                && Commands(host.log) == Commands(old(host.log))
    {
      var exist;
      ok, exist := IsExist(name);
      if !ok || exist { return false; }
      ok := host.CreateService(name);
    }

    /** `Delete` checks only that the service exists: that it is stopped is up to the caller. */
    method Delete(name: Name) returns (ok: bool)
      modifies host`log, host`faults
      ensures host.faults >= old(host.faults)
      ensures LastSeen(old(host.log), name) == Some(Stopped) && Careful(old(host.log)) ==> Careful(host.log)
      ensures States(host.log, name) == States(old(host.log), name)
      ensures ok ==> LastPresent(host.log, name) == Some(false)
      ensures ok ==> Commands(host.log) == Commands(old(host.log)) + [DeleteSent(name, true)]
      ensures old(host.log) <= host.log
      ensures !ok && host.faults == old(host.faults) ==>
                Commands(host.log) == Commands(old(host.log)) && LastPresent(host.log, name) == Some(false)
      ensures !ok ==> || Commands(host.log) == Commands(old(host.log))
                      || Commands(host.log) == Commands(old(host.log)) + [DeleteSent(name, false)]
    {
      var exist;
      ok, exist := IsExist(name);
      if !ok || !exist { return false; }
      ok := host.Attempt();  // open the service
      if !ok { return; }
      ok := host.DeleteService(name);
    }
  }
}
