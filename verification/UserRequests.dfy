/** The users handlers: a request's hash is stored before the request is acted upon, so that a
    request delivered again, also after a crash, is not acted upon twice. The Linux handler keeps
    the hash in a file, the Windows handler in the registry. */
module UserRequests {
  import opened Versions

  datatype Platform = Linux | Windows

  /** `expires` is an int64 of Unix seconds. */
  datatype Request = Request(modulus: string, exponent: string, username: string, expires: int, schema: string)

  const MAX_INT64 := 0x7fff_ffff_ffff_ffff
  const SECOND := 1_000_000_000

  /** `time.Minute * 5`, in nanoseconds. */
  const REQUEST_TIMEFRAME := 300 * SECOND

  /** Seconds from Go's internal zero time to the Unix epoch. */
  const UNIX_TO_INTERNAL := 62_135_596_800

  /** The value an int64 holds after one addition that may have overflowed. */
  function Wrap64(x: int): int {
    if x > MAX_INT64 then x - 2 * (MAX_INT64 + 1) else if x < -MAX_INT64 - 1 then x + 2 * (MAX_INT64 + 1) else x
  }

  /** `Time.Sub`: a Duration is an int64 of nanoseconds, and an out-of-range one is clamped. */
  function Sub(t: int, u: int): int {
    if t - u > MAX_INT64 then MAX_INT64 else if t - u < -MAX_INT64 - 1 then -MAX_INT64 - 1 else t - u
  }

  /** `ValidateRequestTimestamp`, for the two clock readings of `time.Since` and `time.Until`, in
      nanoseconds since the internal zero time. */
  predicate TimestampValid(expires: int, since: int, until: int) {
    var e := Wrap64(expires + UNIX_TO_INTERNAL) * SECOND;
    !(Sub(since, e) > REQUEST_TIMEFRAME || REQUEST_TIMEFRAME < Sub(e, until))
  }

  /** Clock readings from the Unix epoch on, in order, up to some 146 billion years later. */
  predicate PlausibleClock(since: int, until: int) {
    62_135_596_800_000_000_000 <= since <= until <= 4_611_686_018_427_387_903_000_000_000
  }

  /** For every int64 expiry the check accepts exactly the expiries that lie within five minutes
      of the clock: neither the clamped durations nor the overflow in `time.Unix` for expiries at
      the end of the int64 range let another one through. */
  lemma TimestampWithinFrame(expires: int, since: int, until: int)
    requires -0x8000_0000_0000_0000 <= expires <= 0x7fff_ffff_ffff_ffff && PlausibleClock(since, until)
    ensures TimestampValid(expires, since, until) <==>
              since - 300_000_000_000 <= (expires + 62_135_596_800) * 1_000_000_000 <= until + 300_000_000_000
  {
    assert expires + UNIX_TO_INTERNAL > MAX_INT64 ==> Wrap64(expires + UNIX_TO_INTERNAL) < 0;
  }

  /** What happened, in order: the stored hash could not be opened; a write of a hash was begun
      and left this content behind; a request began to be acted upon. */
  datatype Event =
    | Unopened
    | Wrote(hash: string, left: Option<string>)
    | Executed(request: Request, since: int, until: int)

  /** How a delivery ends; Failed is an error of some step, or the death of the process there. */
  datatype Result = Failed | Idempotent | OutOfTimeframe | Performed

  /** The stored hash after a history, starting from `initial`. */
  function Content(initial: Option<string>, trace: seq<Event>): Option<string> {
    if trace == [] then initial
    else match trace[|trace| - 1]
      case Wrote(_, left) => left
      case _ => Content(initial, trace[..|trace| - 1])
  }

  /** The rule each event obeys. A hash is written only over a different one, unless the stored
      one could not be opened; a request is acted upon only right after its own hash was stored
      and with a valid timestamp; only the Linux handler goes on when the store does not open. */
  predicate Permitted(platform: Platform, hash: Request -> string, initial: Option<string>, before: seq<Event>, e: Event) {
    match e
    case Unopened => platform == Linux
    case Wrote(h, _) => (before != [] && before[|before| - 1] == Unopened) || h == "" || Content(initial, before) != Some(h)
    case Executed(r, since, until) =>
      && before != [] && before[|before| - 1] == Wrote(hash(r), Some(hash(r)))
      && TimestampValid(r.expires, since, until)
  }

  ghost predicate History(platform: Platform, hash: Request -> string, initial: Option<string>, trace: seq<Event>) {
    forall i | 0 <= i < |trace| :: Permitted(platform, hash, initial, trace[..i], trace[i])
  }

  lemma HistoryAt(platform: Platform, hash: Request -> string, initial: Option<string>, trace: seq<Event>, i: nat)
    requires History(platform, hash, initial, trace) && i < |trace|
    ensures Permitted(platform, hash, initial, trace[..i], trace[i])
  {
  }

  /** What can open the way for a request whose hash `h` is stored: a write of another hash that
      left something else behind, or an attempt to open the store that failed just before `h` itself
      was written. */
  predicate Separates(h: string, trace: seq<Event>, j: nat)
    requires j < |trace|
  {
    match trace[j]
    case Unopened => j + 1 < |trace| && trace[j + 1].Wrote? && trace[j + 1].hash == h
    case Wrote(g, left) => g != h && left != Some(h)
    case Executed(_, _, _) => false
  }

  lemma ContentAfter(initial: Option<string>, trace: seq<Event>, m: nat)
    requires m < |trace|
    ensures Content(initial, trace[..m + 1]) ==
              match trace[m] { case Wrote(_, left) => left case _ => Content(initial, trace[..m]) }
  {
    assert trace[..m + 1][..m] == trace[..m];
  }

  lemma StoredWhenExecuted(platform: Platform, hash: Request -> string, initial: Option<string>, trace: seq<Event>, i: nat)
    requires History(platform, hash, initial, trace) && i < |trace| && trace[i].Executed?
    ensures Content(initial, trace[..i + 1]) == Some(hash(trace[i].request))
  {
    HistoryAt(platform, hash, initial, trace, i);
    ContentAfter(initial, trace, i);
  }

  lemma StillStored(platform: Platform, hash: Request -> string, initial: Option<string>, trace: seq<Event>, h: string, m: nat)
    requires History(platform, hash, initial, trace) && h != ""
    requires 0 < m < |trace| && Content(initial, trace[..m]) == Some(h)
    requires !Separates(h, trace, m - 1) && !Separates(h, trace, m)
    ensures Content(initial, trace[..m + 1]) == Some(h)
    ensures trace[m].Wrote? ==> trace[m].hash != h
  {
    HistoryAt(platform, hash, initial, trace, m);
    assert trace[..m][m - 1] == trace[m - 1];
    ContentAfter(initial, trace, m);
  }

  /** As long as nothing separates, `h` stays stored, and it is not written again. */
  lemma {:induction false} StaysStored(platform: Platform, hash: Request -> string, initial: Option<string>,
                                       trace: seq<Event>, h: string, i: nat, m: nat)
    requires History(platform, hash, initial, trace) && h != ""
    requires i < m <= |trace| && trace[i].Executed? && hash(trace[i].request) == h
    requires forall j | i < j < m :: !Separates(h, trace, j)
    ensures Content(initial, trace[..m]) == Some(h)
    ensures m - 1 > i && trace[m - 1].Wrote? ==> trace[m - 1].hash != h
  {
    if m - 1 == i {
      StoredWhenExecuted(platform, hash, initial, trace, i);
    } else {
      StaysStored(platform, hash, initial, trace, h, i, m - 1);
      StillStored(platform, hash, initial, trace, h, m - 1);
    }
  }

  lemma {:induction false} FirstSeparation(trace: seq<Event>, h: string, i: nat, m: nat) returns (j: nat)
    requires i < m <= |trace|
    ensures i < j <= m && (j < m ==> Separates(h, trace, j))
    ensures forall x | i < x < j :: !Separates(h, trace, x)
  {
    if m - 1 == i {
      j := m;
    } else {
      j := FirstSeparation(trace, h, i, m - 1);
      if j == m - 1 && !Separates(h, trace, j) { j := m; }
    }
  }

  /** At most once: between two executions of requests with the same hash, either the write of some
      other hash displaced it, or the store did not open just when it was to be checked. Up to
      that point it was stored. */
  lemma AtMostOnce(platform: Platform, hash: Request -> string, initial: Option<string>, trace: seq<Event>, i: nat, k: nat)
    returns (j: nat)
    requires History(platform, hash, initial, trace)
    requires i < k < |trace| && trace[i].Executed? && trace[k].Executed?
    requires hash(trace[i].request) == hash(trace[k].request) != ""
    ensures i < j < k && Separates(hash(trace[i].request), trace, j)
    ensures Content(initial, trace[..j]) == Some(hash(trace[i].request))
  {
    var h := hash(trace[i].request);
    HistoryAt(platform, hash, initial, trace, k);
    assert trace[..k][k - 1] == trace[k - 1] == Wrote(h, Some(h));
    j := FirstSeparation(trace, h, i, k);
    StaysStored(platform, hash, initial, trace, h, i, j);
  }

  /** Every write of a hash that fails leaves what was stored before. */
  ghost predicate AtomicWrites(initial: Option<string>, trace: seq<Event>) {
    forall m: nat | m < |trace| && trace[m].Wrote? ::
      trace[m].left == Some(trace[m].hash) || trace[m].left == Content(initial, trace[..m])
  }

  /** With writes that are atomic, the hash that displaced it is that of a different request, and
      it was stored. */
  lemma AtMostOnceWithAtomicWrites(platform: Platform, hash: Request -> string, initial: Option<string>, trace: seq<Event>, i: nat, k: nat)
    returns (j: nat)
    requires History(platform, hash, initial, trace) && AtomicWrites(initial, trace)
    requires i < k < |trace| && trace[i].Executed? && trace[k].Executed?
    requires hash(trace[i].request) == hash(trace[k].request) != ""
    ensures i < j < k
    ensures match trace[j]
            case Wrote(g, left) => g != hash(trace[i].request) && left == Some(g)
            case Unopened => platform == Linux && trace[j + 1].Wrote? && trace[j + 1].hash == hash(trace[i].request)
            case Executed(_, _, _) => false
  {
    j := AtMostOnce(platform, hash, initial, trace, i, k);
    HistoryAt(platform, hash, initial, trace, j);
  }

  /** Whatever is acted upon expires within five minutes of the clock. */
  lemma ExecutedWithinFrame(platform: Platform, hash: Request -> string, initial: Option<string>, trace: seq<Event>, i: nat)
    requires History(platform, hash, initial, trace) && i < |trace| && trace[i].Executed?
    requires -0x8000_0000_0000_0000 <= trace[i].request.expires <= 0x7fff_ffff_ffff_ffff
    requires PlausibleClock(trace[i].since, trace[i].until)
    ensures trace[i].since - 300_000_000_000 <= (trace[i].request.expires + 62_135_596_800) * 1_000_000_000
                                             <= trace[i].until + 300_000_000_000
  {
    HistoryAt(platform, hash, initial, trace, i);
    TimestampWithinFrame(trace[i].request.expires, trace[i].since, trace[i].until);
  }

  /** On Windows a store that does not open stops the request, so equal requests are separated by
      the write of a different hash without exception. */
  lemma AtMostOnceOnWindows(hash: Request -> string, initial: Option<string>, trace: seq<Event>, i: nat, k: nat)
    returns (j: nat)
    requires History(Windows, hash, initial, trace)
    requires i < k < |trace| && trace[i].Executed? && trace[k].Executed?
    requires hash(trace[i].request) == hash(trace[k].request) != ""
    ensures i < j < k && trace[j].Wrote?
    ensures trace[j].hash != hash(trace[i].request) && trace[j].left != Some(hash(trace[i].request))
    ensures Content(initial, trace[..j]) == Some(hash(trace[i].request))
  {
    j := AtMostOnce(Windows, hash, initial, trace, i, k);
    HistoryAt(Windows, hash, initial, trace, j);
  }

  /** What becomes of the steps of one delivery. */
  datatype Fate = Fate(
    decodes: bool,          // the context is not cancelled, the payload decodes, the hash is computed
    opens: bool,            // the store opens
    readable: bool,         // what is stored can be read
    written: bool,          // the hash is written
    left: Option<string>,   // what is stored when it is not
    prepared: bool,         // a password is generated and encrypted
    finished: bool)         // the user commands succeed

  datatype Delivery = Delivery(request: Request, since: int, until: int, fate: Fate)

  /** How a delivery ends: its result, what is stored afterwards, and all that happened so far. */
  datatype Outcome = Outcome(result: Result, stored: Option<string>, trace: seq<Event>)

  /** `ValidateRequestHash`: None when the check itself failed, else whether the hash is new. A
      Linux store that does not open counts as none. */
  function IsNew(platform: Platform, stored: Option<string>, h: string, fate: Fate): Option<bool> {
    if !fate.opens then
      if platform == Linux then Some(true) else None
    else if stored.None? then Some(true)
    else if !fate.readable then None
    else Some(stored.value == "" || stored.value != h)
  }

  /** A failed attempt to open the store, which goes unnoticed on Linux, is part of the trace. */
  function AfterOpen(platform: Platform, fate: Fate, trace: seq<Event>): seq<Event> {
    if !fate.opens && platform == Linux then trace + [Unopened] else trace
  }

  /** `processRequest` from the decoded request on: check the hash, store it, check the timestamp,
      act. */
  function Deliver(platform: Platform, hash: Request -> string, stored: Option<string>, trace: seq<Event>, d: Delivery): Outcome {
    var h := hash(d.request);
    var checked := AfterOpen(platform, d.fate, trace);
    if !d.fate.decodes then Outcome(Failed, stored, trace)
    else match IsNew(platform, stored, h, d.fate)
      case None => Outcome(Failed, stored, checked)
      case Some(false) => Outcome(Idempotent, stored, checked)
      case Some(true) =>
        if d.fate.written then Act(d, Some(h), checked + [Wrote(h, Some(h))])
        else Outcome(Failed, d.fate.left, checked + [Wrote(h, d.fate.left)])
  }

  /** The rest of a delivery, once its hash is stored. */
  function Act(d: Delivery, stored: Option<string>, trace: seq<Event>): Outcome {
    if !TimestampValid(d.request.expires, d.since, d.until) then Outcome(OutOfTimeframe, stored, trace)
    else if !d.fate.prepared then Outcome(Failed, stored, trace)
    else Outcome(if d.fate.finished then Performed else Failed, stored, trace + [Executed(d.request, d.since, d.until)])
  }

  lemma HistoryAppend(platform: Platform, hash: Request -> string, initial: Option<string>, trace: seq<Event>, e: Event)
    requires History(platform, hash, initial, trace) && Permitted(platform, hash, initial, trace, e)
    ensures History(platform, hash, initial, trace + [e])
    ensures Content(initial, trace + [e]) == match e { case Wrote(_, left) => left case _ => Content(initial, trace) }
  {
    assert (trace + [e])[..|trace|] == trace;
    assert forall i | 0 <= i < |trace| :: (trace + [e])[..i] == trace[..i];
  }

  /** Whatever the fate of its steps, a delivery only does what the rule permits. */
  lemma DeliverKeepsHistory(platform: Platform, hash: Request -> string, initial: Option<string>, trace: seq<Event>, d: Delivery)
    requires History(platform, hash, initial, trace)
    ensures var o := Deliver(platform, hash, Content(initial, trace), trace, d);
      History(platform, hash, initial, o.trace) && Content(initial, o.trace) == o.stored
  {
    var h := hash(d.request);
    var checked := AfterOpen(platform, d.fate, trace);
    if checked != trace {
      HistoryAppend(platform, hash, initial, trace, Unopened);
    }
    if d.fate.decodes && IsNew(platform, Content(initial, trace), h, d.fate) == Some(true) {
      var w := Wrote(h, if d.fate.written then Some(h) else d.fate.left);
      HistoryAppend(platform, hash, initial, checked, w);
      if d.fate.written && TimestampValid(d.request.expires, d.since, d.until) {
        HistoryAppend(platform, hash, initial, checked + [w], Executed(d.request, d.since, d.until));
      }
    }
  }

  /** The whole trace of a run of deliveries. */
  function RunTrace(platform: Platform, hash: Request -> string, initial: Option<string>, deliveries: seq<Delivery>): seq<Event> {
    if deliveries == [] then []
    else
      var before := RunTrace(platform, hash, initial, deliveries[..|deliveries| - 1]);
      Deliver(platform, hash, Content(initial, before), before, deliveries[|deliveries| - 1]).trace
  }

  /** Any run of deliveries, repeats, failures, crashes and restarts is a history as above. */
  lemma {:induction false} RunIsHistory(platform: Platform, hash: Request -> string, initial: Option<string>, deliveries: seq<Delivery>)
    ensures History(platform, hash, initial, RunTrace(platform, hash, initial, deliveries))
  {
    if deliveries != [] {
      var before := deliveries[..|deliveries| - 1];
      RunIsHistory(platform, hash, initial, before);
      DeliverKeepsHistory(platform, hash, initial, RunTrace(platform, hash, initial, before), deliveries[|deliveries| - 1]);
    }
  }

  /** What decides whether a request goes on to be acted upon: its hash is not the one stored, as far
      as that can be told. Nothing stored and an empty hash are never taken for a repeat, and on
      Linux a store that does not open tells nothing. */
  predicate Goes(platform: Platform, stored: Option<string>, h: string, fate: Fate) {
    || (fate.opens && stored == None)
    || (fate.opens && fate.readable && (h == "" || stored != Some(h)))
    || (!fate.opens && platform == Linux)
  }

  /** Every result of a delivery, for any store: when it comes about, and what then has happened and is
      stored. */
  lemma Results(platform: Platform, hash: Request -> string, stored: Option<string>, trace: seq<Event>, d: Delivery)
    ensures var f, h := d.fate, hash(d.request);
      var o := Deliver(platform, hash, stored, trace, d);
      var goes := f.decodes && ( || (f.opens && stored == None)
                                 || (f.opens && f.readable && (h == "" || stored != Some(h)))
                                 || (!f.opens && platform == Linux));
      var checked := trace + if !f.opens && platform == Linux then [Unopened] else [];
      var valid := TimestampValid(d.request.expires, d.since, d.until);
      && (o.result == Performed <==> goes && f.written && valid && f.prepared && f.finished)
      && (o.result == OutOfTimeframe <==> goes && f.written && !valid)
      && (o.result == Idempotent <==> f.decodes && f.opens && f.readable && h != "" && stored == Some(h))
      && (goes && f.written ==> o.stored == Some(h))
      && (goes && !f.written ==> o.stored == f.left && o.trace == checked + [Wrote(h, f.left)])
      && (!goes ==> o.stored == stored && o.trace == trace)
      && (goes && f.written && valid && f.prepared ==>
            o.trace == checked + [Wrote(h, Some(h)), Executed(d.request, d.since, d.until)])
      && (goes && f.written && !(valid && f.prepared) ==> o.trace == checked + [Wrote(h, Some(h))])
  {
  }

  /** A request is carried out whenever every step succeeds, its timestamp is valid, and it is not the
      one stored; whatever was delivered before. */
  lemma NewRequestIsExecuted(platform: Platform, hash: Request -> string, initial: Option<string>, before: seq<Delivery>, d: Delivery)
    requires d.fate.decodes && d.fate.opens && d.fate.readable && d.fate.written && d.fate.prepared
    requires TimestampValid(d.request.expires, d.since, d.until)
    requires Content(initial, RunTrace(platform, hash, initial, before)) != Some(hash(d.request))
    ensures var h := hash(d.request);
      RunTrace(platform, hash, initial, before + [d]) ==
        RunTrace(platform, hash, initial, before) + [Wrote(h, Some(h)), Executed(d.request, d.since, d.until)]
  {
    var trace := RunTrace(platform, hash, initial, before);
    assert (before + [d])[..|before|] == before;
    Results(platform, hash, Content(initial, trace), trace, d);
  }

  /** Every step that a delivery to a healthy machine needs succeeds, apart from opening the store. */
  predicate OtherwiseHealthy(fate: Fate) {
    fate.decodes && fate.written && fate.prepared && fate.finished
  }

  /** A request whose hash is stored is performed again exactly when it is a Linux store that does
      not open, and nothing else stops it. A Windows store that does not open gives an error. */
  lemma PerformedAgainIff(platform: Platform, hash: Request -> string, trace: seq<Event>, d: Delivery)
    requires hash(d.request) != ""
    ensures var h := hash(d.request);
      var o := Deliver(platform, hash, Some(h), trace, d);
      && (o.result == Performed <==>
            platform == Linux && !d.fate.opens && OtherwiseHealthy(d.fate) && TimestampValid(d.request.expires, d.since, d.until))
      && (o.result == Performed ==> o.trace == trace + [Unopened, Wrote(h, Some(h)), Executed(d.request, d.since, d.until)])
      && (o.result == Idempotent <==> d.fate.decodes && d.fate.opens && d.fate.readable)
      && (platform == Windows && !d.fate.opens ==> o == Outcome(Failed, Some(h), trace))
  {
  }

  /** On Linux the exception is real: the handler performs a request, meets a store that does not
      open, and performs the same request again, with nothing in between. */
  lemma UnopenedStoreRepeats(hash: Request -> string, first: Delivery, second: Delivery, initial: Option<string>)
    requires first.request == second.request && hash(first.request) != ""
    requires Deliver(Linux, hash, initial, [], first).result == Performed
    requires !second.fate.opens && OtherwiseHealthy(second.fate)
    requires TimestampValid(second.request.expires, second.since, second.until)
    ensures var h, once := hash(first.request), RunTrace(Linux, hash, initial, [first]);
      && once != [] && once[|once| - 1] == Executed(first.request, first.since, first.until)
      && RunTrace(Linux, hash, initial, [first, second])
           == once + [Unopened, Wrote(h, Some(h)), Executed(first.request, second.since, second.until)]
  {
    var one, two := [first], [first, second];
    assert two[..1] == one && one[..0] == [];
    DeliverKeepsHistory(Linux, hash, initial, [], first);
    PerformedAgainIff(Linux, hash, RunTrace(Linux, hash, initial, one), second);
  }

  class UserHandler {
    const platform: Platform
    const hash: Request -> string
    ghost const initial: Option<string>
    var stored: Option<string>       // the idempotency file or registry value
    ghost var trace: seq<Event>

    constructor (platform: Platform, hash: Request -> string, stored: Option<string>)
      ensures this.platform == platform && this.hash == hash && this.initial == stored && this.stored == stored
      ensures trace == [] && Valid()
    {
      this.platform, this.hash, this.initial, this.stored, trace := platform, hash, stored, stored, [];
    }

    ghost predicate Valid()
      reads this
    {
      History(platform, hash, initial, trace) && stored == Content(initial, trace)
    }

    /** `ValidateRequestHash`, in the fate of one delivery. */
    method ValidateRequestHash(h: string, fate: Fate) returns (isNew: Option<bool>)
      modifies `trace
      ensures isNew == IsNew(platform, stored, h, fate)
      ensures trace == AfterOpen(platform, fate, old(trace))
      ensures isNew == Some(false) ==> stored == Some(h) != Some("") && trace == old(trace)
      ensures isNew == Some(true) && stored == Some(h) != Some("") ==> trace == old(trace) + [Unopened]
    {
      if !fate.opens {
        if platform == Windows { return None; }
        trace := trace + [Unopened];
        return Some(true);
      }
      if stored.None? { return Some(true); }
      if !fate.readable { return None; }
      isNew := Some(!(stored.value != "" && stored.value == h));
    }

    /** Store the hash; a failure or a crash may leave anything. */
    method WriteHash(h: string, fate: Fate) returns (ok: bool)
      modifies `stored, `trace
      ensures ok == fate.written && stored == (if ok then Some(h) else fate.left)
      ensures trace == old(trace) + [Wrote(h, stored)]
    {
      ok := fate.written;
      stored := if ok then Some(h) else fate.left;
      trace := trace + [Wrote(h, stored)];
    }

    /** One delivery, from the decoded request on: check the hash, store it, check the timestamp,
        act. It may fail or die between any two steps, and keeps to the rule wherever it does. */
    method ProcessRequest(d: Delivery) returns (result: Result)
      requires Valid()
      modifies `stored, `trace
      ensures Valid()
      ensures Outcome(result, stored, trace) == Deliver(platform, hash, old(stored), old(trace), d)
      ensures result == Performed <==>
                && d.fate.decodes && Goes(platform, old(stored), hash(d.request), d.fate) && d.fate.written
                && TimestampValid(d.request.expires, d.since, d.until) && d.fate.prepared && d.fate.finished
      ensures result == OutOfTimeframe <==>
                && d.fate.decodes && Goes(platform, old(stored), hash(d.request), d.fate) && d.fate.written
                && !TimestampValid(d.request.expires, d.since, d.until)
      ensures result == Idempotent <==>
                && d.fate.decodes && d.fate.opens && d.fate.readable
                && hash(d.request) != "" && old(stored) == Some(hash(d.request))
      ensures result == Idempotent ==> stored == old(stored) == Some(hash(d.request)) && trace == old(trace)
      ensures result == Performed ==> stored == Some(hash(d.request)) && trace[|trace| - 1] == Executed(d.request, d.since, d.until)
      ensures result == OutOfTimeframe ==> stored == Some(hash(d.request)) && !TimestampValid(d.request.expires, d.since, d.until)
    {
      DeliverKeepsHistory(platform, hash, initial, trace, d);
      Results(platform, hash, stored, trace, d);
      result := Failed;
      if !d.fate.decodes { return; }
      var h := hash(d.request);
      var isNew := ValidateRequestHash(h, d.fate);
      if isNew.None? { return; }
      if !isNew.value { return Idempotent; }
      var ok := WriteHash(h, d.fate);
      if !ok { return; }
      if !TimestampValid(d.request.expires, d.since, d.until) { return OutOfTimeframe; }
      if !d.fate.prepared { return; }
      trace := trace + [Executed(d.request, d.since, d.until)];
      if d.fate.finished { result := Performed; }
    }
  }

  /** A run of deliveries through one store, over any number of restarts. */
  method Run(platform: Platform, hash: Request -> string, stored: Option<string>, deliveries: seq<Delivery>)
    returns (handler: UserHandler)
    ensures handler.Valid() && handler.trace == RunTrace(platform, hash, stored, deliveries)
    ensures History(platform, hash, stored, handler.trace)
  {
    handler := new UserHandler(platform, hash, stored);
    for i := 0 to |deliveries|
      invariant handler.Valid()
      invariant handler.platform == platform && handler.hash == hash && handler.initial == stored
      invariant handler.trace == RunTrace(platform, hash, stored, deliveries[..i])
    {
      var result := handler.ProcessRequest(deliveries[i]);
      assert deliveries[..i + 1][..i] == deliveries[..i];
    }
    assert deliveries[..|deliveries|] == deliveries;
  }
}
